/**
 * The key/value view a Proxy gives over a block: reads and writes go to the
 * block's properties, enumeration lists the I/O properties that hold a value,
 * and a destroyed block looks like an empty object. The deep variant wraps
 * every block-valued property in a proxy of its own.
 */
module BlockProxy {
  import opened Wrappers
  import opened Values
  import opened BlockConfigs

  /**
   * The part of a block the proxy sees: its properties by name, the order
   * in which they were created, and the destroyed flag.
   */
  datatype Block = Block(order: seq<string>, props: map<string, Property>, destroyed: bool)

  predicate Distinct(s: seq<string>) {
    forall i, j :: 0 <= i < j < |s| ==> s[i] != s[j]
  }

  /** The order lists each property once, and a destroyed block holds none. */
  predicate Valid(b: Block) {
    && Distinct(b.order)
    && (forall f :: f in b.order ==> f in b.props)
    && (forall f :: f in b.props ==> f in b.order)
    && (b.destroyed ==> |b.order| == 0)
  }

  /** Names without a sigil are I/O properties; `#` configs, `@` attributes and `~` helpers are not. */
  predicate IsIoName(f: string) {
    |f| > 0 && f[0] != '#' && f[0] != '@' && f[0] != '~'
  }

  /** `block.getProperty(field, false)`: the existing property, never a new one. */
  function GetProperty(b: Block, f: string): (r: Option<Property>)
    requires Valid(b)
    ensures r.Some? <==> f in b.props
    ensures r.Some? ==> r.value == b.props[f] && !b.destroyed
  {
    if f in b.props then Some(b.props[f]) else None
  }

  /** The proxy `get`: the property's value, or undefined when there is no property. */
  function Get(b: Block, f: string): (r: Value)
    requires Valid(b)
    ensures f in b.props ==> r == b.props[f].value
    ensures f !in b.props ==> r == Undefined
    ensures b.destroyed ==> r == Undefined
  {
    match GetProperty(b, f)
    case Some(p) => p.value
    case None => Undefined
  }

  /**
   * The proxy `set`: gets or creates the property and passes the value to its
   * `updateValue`; it always reports success. A destroyed block takes no
   * property, so the write has no effect.
   */
  function Set(b: Block, f: string, v: Value): (r: (bool, Block))
    requires Valid(b)
    ensures r.0
    ensures Valid(r.1) && r.1.destroyed == b.destroyed
    ensures b.destroyed ==> r.1 == b
    ensures !b.destroyed ==> f in r.1.props && r.1.props[f] == Update(if f in b.props then b.props[f] else NewProperty(f), v).1
    ensures forall g :: g != f ==> Get(r.1, g) == Get(b, g)
    ensures forall g :: g in b.props ==> g in r.1.props
    ensures forall g :: g in r.1.props ==> g in b.props || g == f
  {
    if b.destroyed then (true, b)
    else
      var p := if f in b.props then b.props[f] else NewProperty(f);
      var p' := Update(p, v).1;
      var order := if f in b.props then b.order else b.order + [f];
      (true, Block(order, b.props[f := p'], false))
  }

  /** What a write through the proxy leaves behind: the forwarded value, unless the property is read-only. */
  lemma SetThenGet(b: Block, f: string, v: Value)
    requires Valid(b) && !b.destroyed
    ensures f in b.props && b.props[f].kind.ReadOnly? ==> Get(Set(b, f, v).1, f) == Get(b, f)
    ensures !(f in b.props && b.props[f].kind.ReadOnly?) ==>
              Get(Set(b, f, v).1, f) == ForwardedValue(NewPropertyKind(b, f), v)
  {
  }

  /** The kind of the property `f` of `b`, existing or about to be created. */
  function NewPropertyKind(b: Block, f: string): PropertyKind {
    if f in b.props then b.props[f].kind else NewProperty(f).kind
  }

  /** The names of `order` that are I/O properties with a defined value. */
  function DefinedIo(order: seq<string>, props: map<string, Property>): (r: seq<string>)
    ensures forall f :: f in r <==> f in order && IsIoName(f) && f in props && props[f].value != Undefined
    ensures |r| <= |order|
  {
    if |order| == 0 then []
    else
      var f := order[|order| - 1];
      var rest := DefinedIo(order[..|order| - 1], props);
      assert forall g :: g in order <==> g in order[..|order| - 1] || g == f;
      if IsIoName(f) && f in props && props[f].value != Undefined then rest + [f] else rest
  }

  lemma {:induction false} DefinedIoDistinct(order: seq<string>, props: map<string, Property>)
    requires Distinct(order)
    ensures Distinct(DefinedIo(order, props))
    decreases |order|
  {
    if |order| > 0 {
      var init := order[..|order| - 1];
      assert Distinct(init);
      DefinedIoDistinct(init, props);
      assert order[|order| - 1] !in init;
    }
  }

  /** One more name at the end of the order adds it to the enumeration when it qualifies. */
  lemma DefinedIoSnoc(order: seq<string>, f: string, props: map<string, Property>)
    ensures DefinedIo(order + [f], props) ==
      if IsIoName(f) && f in props && props[f].value != Undefined then DefinedIo(order, props) + [f]
      else DefinedIo(order, props)
  {
    assert (order + [f])[..|order|] == order;
  }

  /** `a` is `b` with some elements left out, the rest in their order in `b`. */
  predicate Subsequence(a: seq<string>, b: seq<string>)
    decreases |b|
  {
    if |a| == 0 then true
    else if |b| == 0 then false
    else if a[|a| - 1] == b[|b| - 1] then Subsequence(a[..|a| - 1], b[..|b| - 1])
    else Subsequence(a, b[..|b| - 1])
  }

  /** Leaving out the last element of `a` keeps it a subsequence of `b`. */
  lemma {:induction false} SubsequenceDropLast(a: seq<string>, b: seq<string>)
    requires |a| > 0 && Subsequence(a, b)
    ensures Subsequence(a[..|a| - 1], b)
    decreases |b|
  {
    var init := a[..|a| - 1];
    var b' := b[..|b| - 1];
    if a[|a| - 1] != b[|b| - 1] {
      SubsequenceDropLast(a, b');
    }
    if |init| > 0 && init[|init| - 1] == b[|b| - 1] {
      SubsequenceDropLast(init, b');
      assert init[..|init| - 1] == a[..|a| - 2];
    }
  }

  /** The enumeration lists its names in the order the properties were created. */
  lemma {:induction false} DefinedIoInOrder(order: seq<string>, props: map<string, Property>)
    ensures Subsequence(DefinedIo(order, props), order)
    decreases |order|
  {
    if |order| > 0 {
      var init := order[..|order| - 1];
      DefinedIoInOrder(init, props);
      var f := order[|order| - 1];
      var rest := DefinedIo(init, props);
      if IsIoName(f) && f in props && props[f].value != Undefined {
        assert (rest + [f])[..|rest|] == rest;
      } else if |rest| > 0 {
        SubsequenceSnoc(rest, init, f);
      }
    }
  }

  /** One more element at the end of `b` keeps `a` a subsequence. */
  lemma {:induction false} SubsequenceSnoc(a: seq<string>, b: seq<string>, f: string)
    requires Subsequence(a, b)
    ensures Subsequence(a, b + [f])
    decreases |b|
  {
    assert (b + [f])[..|b|] == b;
    if |a| > 0 && a[|a| - 1] == f {
      SubsequenceDropLast(a, b);
    }
  }

  /** The proxy `ownKeys`: the I/O fields whose value is not undefined; nothing for a destroyed block. */
  function OwnKeys(b: Block): (r: seq<string>)
    requires Valid(b)
    ensures b.destroyed ==> r == []
    ensures forall f :: f in r <==> !b.destroyed && IsIoName(f) && f in b.props && b.props[f].value != Undefined
    ensures Distinct(r)
    ensures Subsequence(r, b.order)
  {
    DefinedIoDistinct(b.order, b.props);
    DefinedIoInOrder(b.order, b.props);
    if b.destroyed then [] else DefinedIo(b.order, b.props)
  }

  /** The proxy `has`: the property exists and its value is not undefined. */
  function Has(b: Block, f: string): (r: bool)
    requires Valid(b)
    ensures r <==> f in b.props && b.props[f].value != Undefined
  {
    GetProperty(b, f).Some? && GetProperty(b, f).value.value != Undefined
  }

  /** Enumeration and `has` agree: a field is listed exactly when it is an I/O name that `has` reports. */
  lemma OwnKeysAgreeWithHas(b: Block, f: string)
    requires Valid(b)
    ensures f in OwnKeys(b) <==> IsIoName(f) && Has(b, f)
  {
  }

  /** The proxy `isExtensible`. */
  function IsExtensible(b: Block): (r: bool)
    ensures r
  {
    true
  }

  datatype Descriptor = Descriptor(writable: bool, enumerable: bool, configurable: bool)

  /** The proxy `getOwnPropertyDescriptor`: one shared writable, enumerable, configurable descriptor. */
  function GetOwnPropertyDescriptor(b: Block, f: string): (r: Descriptor)
    ensures r.writable && r.enumerable && r.configurable
  {
    Descriptor(true, true, true)
  }

  /** What the deep proxy hands back: a plain value, or a deep proxy over a block. */
  datatype DeepValue = Shallow(v: Value) | DeepProxy(block: BlockId)

  /** The value a deep-proxy result stands for. */
  function Unwrap(d: DeepValue): Value {
    match d
    case Shallow(v) => v
    case DeepProxy(id) => BlockRef(id)
  }

  /** The deep proxy `get`: a block-valued property comes back wrapped in a deep proxy. */
  function DeepGet(b: Block, f: string): (r: DeepValue)
    requires Valid(b)
    ensures r.DeepProxy? <==> Get(b, f).BlockRef?
    ensures Unwrap(r) == Get(b, f)
  {
    match GetProperty(b, f)
    case Some(p) =>
      (match p.value
       case BlockRef(id) => DeepProxy(id)
       case v => Shallow(v))
    case None => Shallow(Undefined)
  }

  /** A plain property holding `v`. */
  function PlainProperty(name: string, v: Value): Property {
    Property(name, Plain, v, v, None)
  }

  const ExampleOrder: seq<string> := ["v2", "v3", "@v", "~v4", "v4"]

  /** The block of the proxy test: `v3` deleted, attribute `@v`, helper `~v4` feeding `v4`. */
  function ExampleBlock(): Block {
    Block(ExampleOrder,
          map["v2" := PlainProperty("v2", Num(2.0)),
              "v3" := PlainProperty("v3", Undefined),
              "@v" := PlainProperty("@v", Str("0")),
              "~v4" := PlainProperty("~v4", BlockRef(4)),
              "v4" := PlainProperty("v4", Num(4.0))],
          false)
  }

  /** The same block once its parent has deleted it. */
  function DestroyedBlock(): Block {
    Block([], map[], true)
  }

  lemma ExampleValid()
    ensures Valid(ExampleBlock()) && Valid(DestroyedBlock())
  {
  }

  lemma ExampleLeadingFields()
    ensures DefinedIo(["v2", "v3"], ExampleBlock().props) == ["v2"]
  {
    var props := ExampleBlock().props;
    DefinedIoSnoc([], "v2", props);
    assert [] + ["v2"] == ["v2"];
    DefinedIoSnoc(["v2"], "v3", props);
    assert ["v2"] + ["v3"] == ["v2", "v3"];
  }

  lemma ExampleHiddenFields()
    ensures DefinedIo(["v2", "v3", "@v", "~v4"], ExampleBlock().props) == ["v2"]
  {
    var props := ExampleBlock().props;
    ExampleLeadingFields();
    DefinedIoSnoc(["v2", "v3"], "@v", props);
    assert ["v2", "v3"] + ["@v"] == ["v2", "v3", "@v"];
    DefinedIoSnoc(["v2", "v3", "@v"], "~v4", props);
    assert ["v2", "v3", "@v"] + ["~v4"] == ["v2", "v3", "@v", "~v4"];
  }

  /** The proxy test's enumeration: `v2` and `v4` only. */
  lemma ExampleKeys()
    ensures Valid(ExampleBlock())
    ensures OwnKeys(ExampleBlock()) == ["v2", "v4"]
  {
    ExampleValid();
    ExampleHiddenFields();
    DefinedIoSnoc(["v2", "v3", "@v", "~v4"], "v4", ExampleBlock().props);
    assert ["v2", "v3", "@v", "~v4"] + ["v4"] == ExampleOrder;
  }

  /**
   * The proxy test's reads: `v2` reads its value, the attribute reads back,
   * an unknown attribute is undefined, `v3` is gone, `v4` has an own
   * descriptor and the proxy is extensible.
   */
  lemma ExampleReads()
    ensures Valid(ExampleBlock())
    ensures Get(ExampleBlock(), "v2") == Num(2.0)
    ensures Get(ExampleBlock(), "@v") == Str("0")
    ensures Get(ExampleBlock(), "@notExist") == Undefined
    ensures !Has(ExampleBlock(), "v3")
    ensures GetOwnPropertyDescriptor(ExampleBlock(), "v4") == Descriptor(true, true, true)
    ensures IsExtensible(ExampleBlock())
  {
    ExampleValid();
  }

  /** The deep proxy hands `v2` back as a plain value. */
  lemma ExampleDeepRead()
    ensures Valid(ExampleBlock())
    ensures DeepGet(ExampleBlock(), "v2") == Shallow(Num(2.0))
  {
    ExampleValid();
  }

  /** Once destroyed, every read is undefined, a write is accepted but lost, and nothing is listed. */
  lemma ExampleDestroyedReads()
    ensures Valid(DestroyedBlock())
    ensures Get(DestroyedBlock(), "###") == Undefined
    ensures Set(DestroyedBlock(), "v2", Num(22.0)).0
    ensures Get(Set(DestroyedBlock(), "v2", Num(22.0)).1, "v2") == Undefined
    ensures OwnKeys(DestroyedBlock()) == []
  {
    ExampleValid();
  }

}
