/**
 * The arithmetic block functions `add`, `multiply` and `subtract`, and the
 * registration metadata of all four basic math types. Inputs are the
 * indexed properties "0", "1", ...; an input that is null or undefined is
 * absent from the map. Numbers are modelled as reals.
 */
module MathFunctions {
  import opened Wrappers
  import opened Descriptor

  /** The numeric values of the indexed inputs that are neither null nor undefined. */
  type Inputs = map<nat, real>

  /** The number of indexed inputs a length-driven function consumed: `#len`, or 2 when it is not `>= 0`. */
  function EffectiveLength(len: Option<int>): (n: nat)
    ensures len.Some? && len.value >= 0 ==> n == len.value
    ensures !(len.Some? && len.value >= 0) ==> n == 2
  {
    if len.Some? && len.value >= 0 then len.value else 2
  }

  predicate AllPresent(inputs: Inputs, n: nat) {
    forall i :: 0 <= i < n ==> i in inputs
  }

  /** The sum of inputs `0..n-1`. */
  function Sum(inputs: Inputs, n: nat): real
    requires AllPresent(inputs, n)
  {
    if n == 0 then 0.0 else Sum(inputs, n - 1) + inputs[n - 1]
  }

  /** The product of inputs `0..n-1`. */
  function Product(inputs: Inputs, n: nat): real
    requires AllPresent(inputs, n)
  {
    if n == 0 then 1.0 else Product(inputs, n - 1) * inputs[n - 1]
  }

  /**
   * `AddFunction.run` (with `multiply` set, `MultiplyFunction.run`): the
   * output, None standing for undefined, and how many inputs were read
   * before the loop ended.
   */
  method FoldRun(len: Option<int>, inputs: Inputs, multiply: bool) returns (output: Option<real>, consumed: nat)
    ensures var n := EffectiveLength(len);
      output.Some? <==> n > 0 && AllPresent(inputs, n)
    ensures var n := EffectiveLength(len);
      output.Some? ==> output.value == (if multiply then Product(inputs, n) else Sum(inputs, n))
    ensures consumed <= EffectiveLength(len)
    ensures output.Some? ==> consumed == EffectiveLength(len)
    ensures output.None? && EffectiveLength(len) > 0 ==>
              consumed > 0 && consumed - 1 !in inputs && AllPresent(inputs, consumed - 1)
  {
    var n := EffectiveLength(len);
    if n > 0 {
      var acc := if multiply then 1.0 else 0.0;
      var i := 0;
      while i < n
        invariant 0 <= i <= n
        invariant AllPresent(inputs, i)
        invariant acc == (if multiply then Product(inputs, i) else Sum(inputs, i))
      {
        if i !in inputs {
          return None, i + 1;
        }
        acc := if multiply then acc * inputs[i] else acc + inputs[i];
        i := i + 1;
      }
      output, consumed := Some(acc), n;
    } else {
      output, consumed := None, 0;
    }
  }

  /** `SubtractFunction.run`: undefined unless both inputs are present, else their difference. */
  function Subtract(v0: Option<real>, v1: Option<real>): (r: Option<real>)
    ensures r.Some? <==> v0.Some? && v1.Some?
    ensures r.Some? ==> r.value + v1.value == v0.value
  {
    if v0.None? || v1.None? then None else Some(v0.value - v1.value)
  }

  /** The block test's arithmetic: add 1,2 gives 3, add 5,2 gives 7, subtract 5,2 gives 3. */
  method ExampleRuns() returns (a: Option<real>, b: Option<real>, c: Option<real>)
    ensures a == Some(3.0) && b == Some(7.0) && c == Some(3.0)
  {
    var consumed;
    a, consumed := FoldRun(None, map[0 := 1.0, 1 := 2.0], false);
    b, consumed := FoldRun(None, map[0 := 5.0, 1 := 2.0], false);
    c := Subtract(Some(5.0), Some(2.0));
  }

  /** What a function type registers: its name, priority, arity mode and descriptor. */
  datatype Registration = Registration(typeName: string, priority: int, useLength: bool, desc: FunctionDesc)

  /** The shared descriptor of the length-driven functions: one indexed group and a read-only output. */
  function DescriptorN(name: string, icon: string): (d: FunctionDesc)
    ensures d.name == name && d.useLength
    ensures HasGroup(d.properties) && PortNames(d.properties) == ["output"]
  {
    var props :=
      [Group("", true, [Prop(Some(""), Some("number"), None, Some("high"), false)]),
       Prop(Some("output"), Some("number"), None, None, true)];
    assert props[0].Group?;
    FunctionDesc(name, icon, true, props)
  }

  /** The shared descriptor of the binary functions: fixed inputs `0`, `1` and a read-only output. */
  function Descriptor2(name: string, icon: string): (d: FunctionDesc)
    ensures d.name == name && !d.useLength
    ensures !HasGroup(d.properties) && PortNames(d.properties) == ["0", "1", "output"]
  {
    FunctionDesc(name, icon, false,
      [Prop(Some("0"), Some("number"), None, Some("high"), false),
       Prop(Some("1"), Some("number"), None, Some("high"), false),
       Prop(Some("output"), Some("number"), None, None, true)])
  }

  const MathTypeNames: set<string> := {"add", "multiply", "subtract", "divide"}

  /** The registry entry of a basic math type. */
  function Lookup(typeName: string): (r: Option<Registration>)
    ensures r.Some? <==> typeName in MathTypeNames
    ensures r.Some? ==> r.value.typeName == typeName && r.value.desc.name == typeName
    ensures r.Some? ==> r.value.priority == 0
    ensures r.Some? ==> (r.value.useLength <==> typeName == "add" || typeName == "multiply")
    ensures r.Some? ==> r.value.useLength == r.value.desc.useLength
    ensures r.Some? ==> (r.value.useLength <==> HasGroup(r.value.desc.properties))
    ensures r.Some? && r.value.useLength ==> PortNames(r.value.desc.properties) == ["output"]
    ensures r.Some? && !r.value.useLength ==> PortNames(r.value.desc.properties) == ["0", "1", "output"]
  {
    match typeName
    case "add" => Some(Registration("add", 0, true, DescriptorN("add", "fas:plus")))
    case "multiply" => Some(Registration("multiply", 0, true, DescriptorN("multiply", "fas:times")))
    case "subtract" => Some(Registration("subtract", 0, false, Descriptor2("subtract", "fas:minus")))
    case "divide" => Some(Registration("divide", 0, false, Descriptor2("divide", "fas:divide")))
    case _ => None
  }
}
