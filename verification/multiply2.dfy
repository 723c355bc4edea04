/** The two-input logic block `*`: multiplies its inputs, or outputs null when one is missing. */
module Multiply2 {
  import opened Wrappers
  import opened Values
  import MathFunctions

  /** The type name the block is registered under. */
  const TypeName: string := "*"

  /** The registry of this file: the constructor is found only under `*`. */
  function Lookup(typeName: string): (r: bool)
    ensures r <==> typeName == TypeName
  {
    typeName == "*"
  }

  /** `Multiply2.run`: the sequence of writes to the output, None standing for null or undefined inputs. */
  function Run(v0: Option<real>, v1: Option<real>): (writes: seq<Value>)
    ensures |writes| == 1
    ensures writes[0] == Null <==> v0.None? || v1.None?
    ensures writes[0] != Null ==> writes[0] == Num(v0.value * v1.value)
  {
    if v0.None? || v1.None? then [Null] else [Num(v0.value * v1.value)]
  }

  /** The logic registry and the math-function registry share no type name. */
  lemma RegistriesDisjoint(typeName: string)
    ensures Lookup(typeName) ==> MathFunctions.Lookup(typeName).None?
  {
  }

  /** With both inputs present, `*` outputs what `multiply` outputs for two inputs. */
  lemma AgreesWithMultiply(a: real, b: real)
    ensures MathFunctions.AllPresent(map[0 := a, 1 := b], 2)
    ensures Run(Some(a), Some(b)) == [Num(MathFunctions.Product(map[0 := a, 1 := b], 2))]
  {
    var inputs := map[0 := a, 1 := b];
    assert inputs[0] == a && inputs[1] == b;
    assert MathFunctions.Product(inputs, 0) == 1.0;
    assert MathFunctions.Product(inputs, 1) == a;
    assert MathFunctions.Product(inputs, 2) == a * b;
    var r := Run(Some(a), Some(b));
    assert r[0] != Null;
    assert r[0] == Num(a * b);
  }

  /** The order of the inputs does not matter. */
  lemma RunCommutes(v0: Option<real>, v1: Option<real>)
    ensures Run(v0, v1) == Run(v1, v0)
  {
  }
}
