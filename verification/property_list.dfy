/**
 * The property panel's descriptor merging: the key a descriptor is filed
 * under, the comparison that decides whether two descriptors conflict, and
 * the merger that keeps only the properties every selected block shares.
 * The merger's map is an insertion-ordered list of entries.
 */
module PropertyList {
  import opened Wrappers
  import opened Descriptor
  import Strings

  /** `getPropDescName`: `<group>#len` for a group, the name if non-empty, else `@invalid`. */
  function GetPropDescName(p: PropDesc): (r: string)
    ensures p.Group? ==> r == p.group + "#len"
    ensures p.Prop? && p.name.Some? && p.name.value != "" ==> r == p.name.value
    ensures p.Prop? && !(p.name.Some? && p.name.value != "") ==> r == "@invalid"
  {
    if p.Group? then p.group + "#len"
    else if p.name.Some? && p.name.value != "" then p.name.value
    else "@invalid"
  }

  /** Two groups are filed under the same key exactly when their group names agree. */
  lemma GroupKeysInjective(a: PropDesc, b: PropDesc)
    requires a.Group? && b.Group?
    ensures GetPropDescName(a) == GetPropDescName(b) <==> a.group == b.group
  {
    if GetPropDescName(a) == GetPropDescName(b) {
      Strings.SuffixCancel(a.group, b.group, "#len");
    }
  }

  /** The `name`, `type` and `editor` fields as a plain-descriptor read sees them: undefined on a group. */
  function NameField(p: PropDesc): Option<string> {
    if p.Prop? then p.name else None
  }

  function TypeField(p: PropDesc): Option<string> {
    if p.Prop? then p.typ else None
  }

  function EditorField(p: PropDesc): Option<string> {
    if p.Prop? then p.editor else None
  }

  /**
   * When two descriptors agree: groups need equal group names, property
   * arrays present on both sides with equal lengths and pairwise agreeing
   * elements; plain descriptors need equal name, type and editor.
   */
  predicate ComparePropDesc(a: PropDesc, b: PropDesc)
    decreases a
  {
    match a
    case Group(g, has, ps) =>
      && b.Group? && b.group == g
      && has && b.hasProperties
      && |ps| == |b.properties|
      && forall i :: 0 <= i < |ps| ==> ComparePropDesc(ps[i], b.properties[i])
    case Prop(_, _, _, _, _) =>
      a.name == NameField(b) && a.typ == TypeField(b) && a.editor == EditorField(b)
  }

  /** `comparePropDesc` as written: an element loop that stops at the first disagreement. */
  method CompareLoop(a: PropDesc, b: PropDesc) returns (r: bool)
    ensures r == ComparePropDesc(a, b)
    ensures a.Prop? ==> (r <==> a.name == NameField(b) && a.typ == TypeField(b) && a.editor == EditorField(b))
    ensures a.Group? && r ==> b.Group? && b.group == a.group
    ensures a.Group? && r ==> a.hasProperties && b.hasProperties && |a.properties| == |b.properties|
    decreases a
  {
    if a.Group? {
      if !b.Group? || a.group != b.group {
        return false;
      }
      if !a.hasProperties || !b.hasProperties || |a.properties| != |b.properties| {
        return false;
      }
      var xs, ys := a.properties, b.properties;
      var i := 0;
      while i < |xs|
        invariant 0 <= i <= |xs|
        invariant forall j :: 0 <= j < i ==> ComparePropDesc(xs[j], ys[j])
      {
        assert xs[i] in xs;
        var same := CompareLoop(xs[i], ys[i]);
        if !same {
          return false;
        }
        i := i + 1;
      }
    } else {
      if a.name != NameField(b) || a.typ != TypeField(b) || a.editor != EditorField(b) {
        return false;
      }
    }
    return true;
  }

  /** Every group carries its property array, all the way down. */
  predicate WellFormed(p: PropDesc)
    decreases p
  {
    match p
    case Group(_, has, ps) => has && forall i :: 0 <= i < |ps| ==> WellFormed(ps[i])
    case Prop(_, _, _, _, _) => true
  }

  /** A well-formed descriptor agrees with itself. */
  lemma {:induction false} CompareReflexive(p: PropDesc)
    requires WellFormed(p)
    ensures ComparePropDesc(p, p)
    decreases p
  {
    if p.Group? {
      var ps := p.properties;
      forall i | 0 <= i < |ps|
        ensures ComparePropDesc(ps[i], ps[i])
      {
        assert ps[i] in ps;
        CompareReflexive(ps[i]);
      }
    }
  }

  /** A group whose property array is missing does not even agree with itself. */
  lemma GroupWithoutPropertiesConflicts(g: string)
    ensures !ComparePropDesc(Group(g, false, []), Group(g, false, []))
  {
  }

  /** An entry of the merger's map. */
  datatype Entry = Entry(name: string, desc: PropDesc)

  type Entries = seq<Entry>

  /** The names of the entries, in map order. */
  function Names(es: Entries): (r: seq<string>)
    ensures |r| == |es|
    ensures forall i :: 0 <= i < |es| ==> r[i] == es[i].name
  {
    if |es| == 0 then [] else [es[0].name] + Names(es[1..])
  }

  predicate Distinct(s: seq<string>) {
    forall i, j :: 0 <= i < j < |s| ==> s[i] != s[j]
  }

  predicate DistinctNames(es: Entries) {
    Distinct(Names(es))
  }

  lemma DistinctTail(es: Entries)
    requires |es| > 0 && DistinctNames(es)
    ensures DistinctNames(es[1..]) && es[0].name !in Names(es[1..])
  {
    var ns := Names(es);
    assert ns[1..] == Names(es[1..]);
    forall j | 0 <= j < |ns[1..]|
      ensures ns[1..][j] != ns[0]
    {
      assert ns[1..][j] == ns[j + 1];
    }
  }

  lemma DistinctCons(e: Entry, rest: Entries)
    requires DistinctNames(rest) && e.name !in Names(rest)
    ensures DistinctNames([e] + rest)
  {
    assert ([e] + rest)[1..] == rest;
    var ns := Names([e] + rest);
    forall i, j | 0 <= i < j < |ns| ensures ns[i] != ns[j] {
      if i == 0 {
        assert ns[j] == Names(rest)[j - 1];
      } else {
        assert ns[i] == Names(rest)[i - 1] && ns[j] == Names(rest)[j - 1];
      }
    }
  }

  /** `map.get(name)`: the descriptor of the first entry with that name, if any. */
  function Lookup(es: Entries, n: string): (r: Option<PropDesc>)
    ensures r.None? <==> n !in Names(es)
    ensures r.Some? ==> Entry(n, r.value) in es
  {
    if |es| == 0 then None
    else if es[0].name == n then Some(es[0].desc)
    else Lookup(es[1..], n)
  }

  /** In a map with distinct names, an entry's descriptor is what lookup finds. */
  lemma {:induction false} LookupEntry(es: Entries, e: Entry)
    requires DistinctNames(es) && e in es
    ensures Lookup(es, e.name) == Some(e.desc)
    decreases |es|
  {
    DistinctTail(es);
    if es[0] != e {
      assert e in es[1..];
      LookupEntry(es[1..], e);
    } else {
      assert Lookup(es, e.name) == Some(es[0].desc);
    }
  }

  /** `map.set(name, desc)`: replaces the descriptor in place, or appends a new entry. */
  function Put(es: Entries, n: string, d: PropDesc): (r: Entries)
    ensures n in Names(es) ==> Names(r) == Names(es)
    ensures n !in Names(es) ==> Names(r) == Names(es) + [n]
    decreases |es|
  {
    if |es| == 0 then [Entry(n, d)]
    else if es[0].name == n then
      assert ([Entry(n, d)] + es[1..])[1..] == es[1..];
      [Entry(n, d)] + es[1..]
    else
      var r := [es[0]] + Put(es[1..], n, d);
      assert r[1..] == Put(es[1..], n, d);
      r
  }

  /** What `Put` does to the map: `n` now finds `d`, every other name finds what it found before. */
  lemma {:induction false} PutLookup(es: Entries, n: string, d: PropDesc, m: string)
    ensures Lookup(Put(es, n, d), n) == Some(d)
    ensures m != n ==> Lookup(Put(es, n, d), m) == Lookup(es, m)
    decreases |es|
  {
    if |es| > 0 && es[0].name != n {
      var r := Put(es, n, d);
      assert r[1..] == Put(es[1..], n, d);
      PutLookup(es[1..], n, d, m);
    } else if |es| > 0 {
      assert Put(es, n, d)[1..] == es[1..];
    }
  }

  lemma PutDistinct(es: Entries, n: string, d: PropDesc)
    requires DistinctNames(es)
    ensures DistinctNames(Put(es, n, d))
  {
    var ns := Names(es);
    if n !in ns {
      var ns' := ns + [n];
      forall i, j | 0 <= i < j < |ns'| ensures ns'[i] != ns'[j] {
        if j == |ns| {
          assert ns'[i] == ns[i];
          assert ns[i] in ns;
        }
      }
    }
  }

  /** `map.delete` for every name in `D`, keeping the order of the rest. */
  function Without(es: Entries, D: set<string>): (r: Entries)
    ensures forall e :: e in r <==> e in es && e.name !in D
    ensures |r| <= |es|
  {
    if |es| == 0 then []
    else if es[0].name in D then Without(es[1..], D)
    else [es[0]] + Without(es[1..], D)
  }

  /** The names left by `Without` are the old names outside `D`. */
  lemma {:induction false} WithoutNames(es: Entries, D: set<string>, n: string)
    ensures n in Names(Without(es, D)) <==> n in Names(es) && n !in D
    decreases |es|
  {
    if |es| > 0 {
      WithoutNames(es[1..], D, n);
      if es[0].name !in D {
        assert ([es[0]] + Without(es[1..], D))[1..] == Without(es[1..], D);
      }
    }
  }

  lemma {:induction false} WithoutDistinct(es: Entries, D: set<string>)
    requires DistinctNames(es)
    ensures DistinctNames(Without(es, D))
    decreases |es|
  {
    if |es| > 0 {
      DistinctTail(es);
      WithoutDistinct(es[1..], D);
      if es[0].name !in D {
        WithoutNames(es[1..], D, es[0].name);
        DistinctCons(es[0], Without(es[1..], D));
      }
    }
  }

  lemma {:induction false} WithoutNothing(es: Entries)
    ensures Without(es, {}) == es
    decreases |es|
  {
    if |es| > 0 {
      WithoutNothing(es[1..]);
    }
  }

  lemma {:induction false} WithoutTwice(es: Entries, A: set<string>, B: set<string>)
    ensures Without(Without(es, A), B) == Without(es, A + B)
    decreases |es|
  {
    if |es| > 0 {
      WithoutTwice(es[1..], A, B);
    }
  }

  /** `ys` keeps some of the elements of `xs`, in their original order. */
  predicate IsSubsequence(ys: Entries, xs: Entries)
    decreases |xs|
  {
    if |ys| == 0 then true
    else if |xs| == 0 then false
    else if ys[0] == xs[0] then IsSubsequence(ys[1..], xs[1..])
    else IsSubsequence(ys, xs[1..])
  }

  lemma {:induction false} WithoutIsSubsequence(es: Entries, D: set<string>)
    ensures IsSubsequence(Without(es, D), es)
    decreases |es|
  {
    if |es| > 0 {
      WithoutIsSubsequence(es[1..], D);
      if es[0].name !in D {
        assert ([es[0]] + Without(es[1..], D))[1..] == Without(es[1..], D);
      } else if |Without(es[1..], D)| > 0 {
        assert Without(es[1..], D)[0] in Without(es[1..], D);
      }
    }
  }

  /** The last descriptor in `props` filed under `n`: the one a map built by `set` keeps. */
  function LastWithName(props: seq<PropDesc>, n: string): (r: Option<PropDesc>)
    ensures r.Some? ==> r.value in props && GetPropDescName(r.value) == n
    ensures r.None? <==> forall i :: 0 <= i < |props| ==> GetPropDescName(props[i]) != n
    decreases |props|
  {
    if |props| == 0 then None
    else if GetPropDescName(props[|props| - 1]) == n then Some(props[|props| - 1])
    else
      var r := LastWithName(props[..|props| - 1], n);
      assert forall i :: 0 <= i < |props| - 1 ==> props[..|props| - 1][i] == props[i];
      r
  }

  /** The position of the first descriptor in `props` filed under `n`; `|props|` when there is none. */
  function FirstIndex(props: seq<PropDesc>, n: string): (r: nat)
    ensures r <= |props|
    ensures r < |props| ==> GetPropDescName(props[r]) == n
    ensures forall j :: 0 <= j < r ==> GetPropDescName(props[j]) != n
    decreases |props|
  {
    if |props| == 0 then 0
    else if GetPropDescName(props[0]) == n then 0
    else
      var r := 1 + FirstIndex(props[1..], n);
      assert forall j :: 1 <= j < r ==> props[j] == props[1..][j - 1];
      r
  }

  /** The keys of `es` come in the order in which `props` first files a descriptor under them. */
  predicate InKeyOrder(es: Entries, props: seq<PropDesc>) {
    forall a, b :: 0 <= a < b < |es| ==> FirstIndex(props, es[a].name) < FirstIndex(props, es[b].name)
  }

  /** What a subsequence holds, the whole sequence holds. */
  lemma {:induction false} SubsequenceMembers(ys: Entries, xs: Entries, e: Entry)
    requires IsSubsequence(ys, xs) && e in ys
    ensures e in xs
    decreases |xs|
  {
    if ys[0] == xs[0] {
      if e != ys[0] {
        assert e in ys[1..];
        SubsequenceMembers(ys[1..], xs[1..], e);
      }
    } else {
      SubsequenceMembers(ys, xs[1..], e);
    }
  }

  /** Deleting entries keeps the survivors in key order. */
  lemma {:induction false} SubsequenceKeepsOrder(ys: Entries, xs: Entries, props: seq<PropDesc>)
    requires IsSubsequence(ys, xs) && InKeyOrder(xs, props)
    ensures InKeyOrder(ys, props)
    decreases |xs|
  {
    if |ys| > 0 {
      assert InKeyOrder(xs[1..], props) by {
        forall a, b | 0 <= a < b < |xs| - 1
          ensures FirstIndex(props, xs[1..][a].name) < FirstIndex(props, xs[1..][b].name)
        {
          assert xs[1..][a] == xs[a + 1] && xs[1..][b] == xs[b + 1];
        }
      }
      if ys[0] == xs[0] {
        SubsequenceKeepsOrder(ys[1..], xs[1..], props);
        forall a, b | 0 <= a < b < |ys| ensures FirstIndex(props, ys[a].name) < FirstIndex(props, ys[b].name) {
          assert ys[b] == ys[1..][b - 1];
          if a == 0 {
            SubsequenceMembers(ys[1..], xs[1..], ys[b]);
            var c :| 0 <= c < |xs| - 1 && xs[1..][c] == ys[b];
            assert xs[c + 1] == ys[b];
          } else {
            assert ys[a] == ys[1..][a - 1];
          }
        }
      } else {
        SubsequenceKeepsOrder(ys, xs[1..], props);
      }
    }
  }

  /** The first descriptor filed under its key, with none before it, is where that key first occurs. */
  lemma FirstIndexAt(props: seq<PropDesc>, i: nat)
    requires i < |props|
    requires forall j :: 0 <= j < i ==> GetPropDescName(props[j]) != GetPropDescName(props[i])
    ensures FirstIndex(props, GetPropDescName(props[i])) == i
  {
  }

  /** Appending a key whose first position is past every key already there keeps key order. */
  lemma KeyOrderAppend(es: Entries, r: Entries, props: seq<PropDesc>, i: nat)
    requires InKeyOrder(es, props) && forall k :: 0 <= k < |es| ==> FirstIndex(props, es[k].name) < i
    requires |r| == |es| + 1 && forall k :: 0 <= k < |es| ==> r[k].name == es[k].name
    requires FirstIndex(props, r[|es|].name) == i
    ensures InKeyOrder(r, props) && forall k :: 0 <= k < |r| ==> FirstIndex(props, r[k].name) < i + 1
  {
    forall a, b | 0 <= a < b < |r| ensures FirstIndex(props, r[a].name) < FirstIndex(props, r[b].name) {
      if b < |es| {
        assert FirstIndex(props, es[a].name) < FirstIndex(props, es[b].name);
      } else {
        assert FirstIndex(props, es[a].name) < i;
      }
    }
  }

  /** Keeping every key in place keeps key order. */
  lemma KeyOrderSame(es: Entries, r: Entries, props: seq<PropDesc>, i: nat)
    requires InKeyOrder(es, props) && forall k :: 0 <= k < |es| ==> FirstIndex(props, es[k].name) < i
    requires |r| == |es| && forall k :: 0 <= k < |es| ==> r[k].name == es[k].name
    ensures InKeyOrder(r, props) && forall k :: 0 <= k < |r| ==> FirstIndex(props, r[k].name) < i + 1
  {
    forall a, b | 0 <= a < b < |r| ensures FirstIndex(props, r[a].name) < FirstIndex(props, r[b].name) {
      assert FirstIndex(props, es[a].name) < FirstIndex(props, es[b].name);
    }
  }

  /** One `set` of the first `add`: an existing key keeps its place, a new one goes last. */
  lemma KeyOrderStep(es: Entries, r: Entries, props: seq<PropDesc>, i: nat)
    requires i < |props|
    requires InKeyOrder(es, props) && forall k :: 0 <= k < |es| ==> FirstIndex(props, es[k].name) < i
    requires GetPropDescName(props[i]) in Names(es) ==> Names(r) == Names(es)
    requires GetPropDescName(props[i]) !in Names(es) ==>
      Names(r) == Names(es) + [GetPropDescName(props[i])] &&
      forall j :: 0 <= j < i ==> GetPropDescName(props[j]) != GetPropDescName(props[i])
    ensures InKeyOrder(r, props) && forall k :: 0 <= k < |r| ==> FirstIndex(props, r[k].name) < i + 1
  {
    var n := GetPropDescName(props[i]);
    forall k | 0 <= k < |es| ensures r[k].name == es[k].name {
      assert Names(r)[k] == Names(es)[k];
    }
    if n !in Names(es) {
      assert r[|es|].name == Names(r)[|es|];
      FirstIndexAt(props, i);
      KeyOrderAppend(es, r, props, i);
    } else {
      KeyOrderSame(es, r, props, i);
    }
  }

  /** A merge step keeps the order of the first list's keys: the first `add` puts them in order, a later one only deletes. */
  lemma MergeKeepsOrder(first: seq<PropDesc>, added: seq<PropDesc>, m: Merger, r: Merger)
    requires r.entries.Some?
    requires m.entries.None? ==> added == first && InKeyOrder(r.entries.value, added)
    requires m.entries.Some? ==> InKeyOrder(m.entries.value, first) && IsSubsequence(r.entries.value, m.entries.value)
    ensures InKeyOrder(r.entries.value, first)
  {
    if m.entries.Some? {
      SubsequenceKeepsOrder(r.entries.value, m.entries.value, first);
    }
  }


  /** The `set` of descriptor `i` makes every key find the last descriptor filed under it so far. */
  lemma PopulateLookupStep(es: Entries, props: seq<PropDesc>, i: nat)
    requires i < |props|
    requires forall n :: Lookup(es, n) == LastWithName(props[..i], n)
    ensures forall n :: Lookup(Put(es, GetPropDescName(props[i]), props[i]), n) == LastWithName(props[..i + 1], n)
  {
    var name := GetPropDescName(props[i]);
    assert props[..i + 1][..i] == props[..i];
    forall m ensures Lookup(Put(es, name, props[i]), m) == LastWithName(props[..i + 1], m) {
      PutLookup(es, name, props[i], m);
    }
  }

  /** One step of `Populate`: the map after the `set` of descriptor `i` keeps all three loop facts. */
  lemma PopulateStep(es: Entries, props: seq<PropDesc>, i: nat)
    requires i < |props|
    requires DistinctNames(es)
    requires forall n :: Lookup(es, n) == LastWithName(props[..i], n)
    requires InKeyOrder(es, props) && forall k :: 0 <= k < |es| ==> FirstIndex(props, es[k].name) < i
    ensures var r := Put(es, GetPropDescName(props[i]), props[i]);
      && DistinctNames(r)
      && (forall n :: Lookup(r, n) == LastWithName(props[..i + 1], n))
      && InKeyOrder(r, props) && forall k :: 0 <= k < |r| ==> FirstIndex(props, r[k].name) < i + 1
  {
    var name := GetPropDescName(props[i]);
    PutDistinct(es, name, props[i]);
    PopulateLookupStep(es, props, i);
    if name !in Names(es) {
      assert LastWithName(props[..i], name).None?;
      forall j | 0 <= j < i ensures GetPropDescName(props[j]) != name {
        assert props[..i][j] == props[j];
      }
    }
    KeyOrderStep(es, Put(es, name, props[i]), props, i);
  }

  /**
   * The first `add` of the merger: every descriptor stored under its key, a
   * later duplicate overwriting in place, so keys keep their first position.
   */
  method Populate(props: seq<PropDesc>) returns (es: Entries)
    ensures DistinctNames(es)
    ensures forall n :: Lookup(es, n) == LastWithName(props, n)
    ensures InKeyOrder(es, props)
  {
    es := [];
    for i := 0 to |props|
      invariant DistinctNames(es)
      invariant forall n :: Lookup(es, n) == LastWithName(props[..i], n)
      invariant InKeyOrder(es, props) && forall k :: 0 <= k < |es| ==> FirstIndex(props, es[k].name) < i
    {
      PopulateStep(es, props, i);
      es := Put(es, GetPropDescName(props[i]), props[i]);
    }
    assert props[..|props|] == props;
  }

  /** Some descriptor among the first `k` of `props` is filed under `n`. */
  predicate OccursBefore(n: string, props: seq<PropDesc>, k: nat)
    requires k <= |props|
  {
    exists j :: 0 <= j < k && GetPropDescName(props[j]) == n
  }

  /** Some descriptor among the first `k` of `props` is filed under `n` and disagrees with `d`. */
  predicate ConflictsBefore(d: PropDesc, n: string, props: seq<PropDesc>, k: nat)
    requires k <= |props|
  {
    exists j :: 0 <= j < k && GetPropDescName(props[j]) == n && !ComparePropDesc(d, props[j])
  }

  /** A later `add` keeps an entry when its key occurs in `props` and no descriptor under that key conflicts. */
  predicate Kept(e: Entry, props: seq<PropDesc>) {
    OccursBefore(e.name, props, |props|) && !ConflictsBefore(e.desc, e.name, props, |props|)
  }

  /** In a map with distinct names, a name identifies its entry. */
  lemma SameNameSameEntry(es: Entries, e1: Entry, e2: Entry)
    requires DistinctNames(es) && e1 in es && e2 in es && e1.name == e2.name
    ensures e1 == e2
  {
    var i :| 0 <= i < |es| && es[i] == e1;
    var j :| 0 <= j < |es| && es[j] == e2;
    assert Names(es)[i] == Names(es)[j];
  }

  /** An entry of a map has its name among the map's names. */
  lemma EntryName(es: Entries, e: Entry)
    requires e in es
    ensures e.name in Names(es)
  {
    var i :| 0 <= i < |es| && es[i] == e;
    assert Names(es)[i] == e.name;
  }

  /** What the first pass of a later `add` knows after `i` descriptors. */
  predicate FirstPassInv(es: Entries, props: seq<PropDesc>, i: nat, deleted: set<string>, checked: set<string>)
    requires i <= |props|
  {
    && (forall e :: e in es ==> (e.name in deleted <==> ConflictsBefore(e.desc, e.name, props, i)))
    && (forall e :: e in es && e.name !in deleted ==> (e.name in checked <==> OccursBefore(e.name, props, i)))
  }

  /** The entry a live key of the first pass looks up is the original one. */
  lemma LookupSurvivor(es: Entries, deleted: set<string>, e: Entry)
    requires DistinctNames(es) && e in es && e.name !in deleted
    ensures e.name in Names(Without(es, deleted))
    ensures Lookup(Without(es, deleted), e.name) == Some(e.desc)
  {
    WithoutDistinct(es, deleted);
    assert e in Without(es, deleted);
    EntryName(Without(es, deleted), e);
    LookupEntry(Without(es, deleted), e);
  }

  /** One more descriptor: a key occurs if it occurred or the new one has its name. */
  lemma OccursExtend(n: string, props: seq<PropDesc>, i: nat)
    requires i < |props|
    ensures OccursBefore(n, props, i + 1) <==> OccursBefore(n, props, i) || GetPropDescName(props[i]) == n
  {
    if OccursBefore(n, props, i + 1) && !OccursBefore(n, props, i) {
      var j :| 0 <= j < i + 1 && GetPropDescName(props[j]) == n;
      assert j == i;
    }
  }

  /** One more descriptor: a conflict is an old one or one with the new descriptor. */
  lemma ConflictsExtend(d: PropDesc, n: string, props: seq<PropDesc>, i: nat)
    requires i < |props|
    ensures ConflictsBefore(d, n, props, i + 1)
        <==> ConflictsBefore(d, n, props, i) || (GetPropDescName(props[i]) == n && !ComparePropDesc(d, props[i]))
  {
    if ConflictsBefore(d, n, props, i + 1) && !ConflictsBefore(d, n, props, i) {
      var j :| 0 <= j < i + 1 && GetPropDescName(props[j]) == n && !ComparePropDesc(d, props[j]);
      assert j == i;
    }
  }

  /** A conflicting key is deleted. */
  lemma DeleteStep(es: Entries, props: seq<PropDesc>, i: nat, deleted: set<string>, checked: set<string>)
    requires DistinctNames(es) && i < |props| && FirstPassInv(es, props, i, deleted, checked)
    requires GetPropDescName(props[i]) in Names(Without(es, deleted))
    requires !ComparePropDesc(Lookup(Without(es, deleted), GetPropDescName(props[i])).value, props[i])
    ensures FirstPassInv(es, props, i + 1, deleted + {GetPropDescName(props[i])}, checked)
  {
    var name := GetPropDescName(props[i]);
    var v := Lookup(Without(es, deleted), name).value;
    assert Entry(name, v) in es;
    forall e | e in es
      ensures e.name in deleted + {name} <==> ConflictsBefore(e.desc, e.name, props, i + 1)
    {
      ConflictsExtend(e.desc, e.name, props, i);
      if e.name == name {
        SameNameSameEntry(es, e, Entry(name, v));
      }
    }
    forall e | e in es && e.name !in deleted + {name}
      ensures e.name in checked <==> OccursBefore(e.name, props, i + 1)
    {
      OccursExtend(e.name, props, i);
    }
  }

  /** A key without conflict is recorded as seen. */
  lemma KeepStep(es: Entries, props: seq<PropDesc>, i: nat, deleted: set<string>, checked: set<string>)
    requires DistinctNames(es) && i < |props| && FirstPassInv(es, props, i, deleted, checked)
    requires !(GetPropDescName(props[i]) in Names(Without(es, deleted))
               && !ComparePropDesc(Lookup(Without(es, deleted), GetPropDescName(props[i])).value, props[i]))
    ensures FirstPassInv(es, props, i + 1, deleted, checked + {GetPropDescName(props[i])})
  {
    var name := GetPropDescName(props[i]);
    forall e | e in es
      ensures e.name in deleted <==> ConflictsBefore(e.desc, e.name, props, i + 1)
    {
      ConflictsExtend(e.desc, e.name, props, i);
      if e.name == name && e.name !in deleted {
        LookupSurvivor(es, deleted, e);
      }
    }
    forall e | e in es && e.name !in deleted
      ensures e.name in checked + {name} <==> OccursBefore(e.name, props, i + 1)
    {
      OccursExtend(e.name, props, i);
    }
  }

  /** What the second pass of a later `add` knows after `k` entries of the snapshot. */
  predicate SecondPassInv(snapshot: Entries, k: nat, removed: set<string>, checked: set<string>)
    requires k <= |snapshot|
  {
    && (forall n :: n in removed ==> n !in checked)
    && (forall j :: 0 <= j < k && snapshot[j].name !in checked ==> snapshot[j].name in removed)
  }

  /** After both passes, exactly the kept entries remain. */
  lemma BothPasses(es: Entries, props: seq<PropDesc>, deleted: set<string>, checked: set<string>, removed: set<string>)
    requires DistinctNames(es)
    requires FirstPassInv(es, props, |props|, deleted, checked)
    requires SecondPassInv(Without(es, deleted), |Without(es, deleted)|, removed, checked)
    ensures forall e :: e in Without(es, deleted + removed) <==> e in es && Kept(e, props)
  {
    var snapshot := Without(es, deleted);
    forall e | e in es
      ensures e.name !in deleted + removed <==> Kept(e, props)
    {
      if e.name !in deleted {
        assert e in snapshot;
        var j :| 0 <= j < |snapshot| && snapshot[j] == e;
      }
    }
  }

  /** The first pass of a later `add`: delete every key whose descriptor conflicts. */
  method DropConflicts(es: Entries, props: seq<PropDesc>) returns (m: Entries, checked: set<string>, ghost deleted: set<string>)
    requires DistinctNames(es)
    ensures m == Without(es, deleted)
    ensures FirstPassInv(es, props, |props|, deleted, checked)
  {
    WithoutNothing(es);
    m := es;
    checked := {};
    deleted := {};
    for i := 0 to |props|
      invariant m == Without(es, deleted)
      invariant FirstPassInv(es, props, i, deleted, checked)
    {
      var p := props[i];
      var name := GetPropDescName(p);
      if name in Names(m) && !ComparePropDesc(Lookup(m, name).value, p) {
        DeleteStep(es, props, i, deleted, checked);
        WithoutTwice(es, deleted, {name});
        m := Without(m, {name});
        deleted := deleted + {name};
      } else {
        KeepStep(es, props, i, deleted, checked);
        checked := checked + {name};
      }
    }
  }

  /** One more entry of the snapshot: an unseen key joins the removed ones. */
  lemma UnseenStep(snapshot: Entries, k: nat, removed: set<string>, checked: set<string>)
    requires k < |snapshot| && SecondPassInv(snapshot, k, removed, checked)
    ensures snapshot[k].name in checked ==> SecondPassInv(snapshot, k + 1, removed, checked)
    ensures snapshot[k].name !in checked ==> SecondPassInv(snapshot, k + 1, removed + {snapshot[k].name}, checked)
  {
  }

  /** The second pass of a later `add`: delete every remaining key not seen. */
  method DropUnseen(es: Entries, ghost deleted: set<string>, snapshot: Entries, checked: set<string>)
      returns (m: Entries, ghost removed: set<string>)
    requires snapshot == Without(es, deleted)
    ensures m == Without(es, deleted + removed)
    ensures SecondPassInv(snapshot, |snapshot|, removed, checked)
  {
    WithoutNothing(snapshot);
    m := snapshot;
    removed := {};
    for k := 0 to |snapshot|
      invariant m == Without(snapshot, removed)
      invariant SecondPassInv(snapshot, k, removed, checked)
    {
      var name := snapshot[k].name;
      UnseenStep(snapshot, k, removed, checked);
      if name !in checked {
        WithoutTwice(snapshot, removed, {name});
        m := Without(m, {name});
        removed := removed + {name};
      }
    }
    WithoutTwice(es, deleted, removed);
  }

  /**
   * A later `add` of the merger: a first pass deletes every conflicting
   * key and collects the keys seen, a second deletes every key not seen.
   */
  method Intersect(es: Entries, props: seq<PropDesc>) returns (r: Entries)
    requires DistinctNames(es)
    ensures DistinctNames(r)
    ensures forall e :: e in r <==> e in es && Kept(e, props)
    ensures forall n :: n in Names(r) ==> n in Names(es)
    ensures IsSubsequence(r, es)
  {
    var m, checked, deleted := DropConflicts(es, props);
    ghost var removed;
    r, removed := DropUnseen(es, deleted, m, checked);
    BothPasses(es, props, deleted, checked, removed);
    WithoutDistinct(es, deleted + removed);
    WithoutIsSubsequence(es, deleted + removed);
    forall n | n in Names(r) ensures n in Names(es) {
      WithoutNames(es, deleted + removed, n);
    }
  }

  /** Some descriptor in `props` is filed under `n`. */
  predicate Declares(props: seq<PropDesc>, n: string) {
    OccursBefore(n, props, |props|)
  }

  /** A descriptor list with distinct keys and well-formed groups keeps every one of its entries when added to itself. */
  lemma SameListKeepsEverything(props: seq<PropDesc>, i: nat)
    requires i < |props|
    requires forall a, b :: 0 <= a < b < |props| ==> GetPropDescName(props[a]) != GetPropDescName(props[b])
    requires WellFormed(props[i])
    ensures Kept(Entry(GetPropDescName(props[i]), props[i]), props)
  {
    var n := GetPropDescName(props[i]);
    CompareReflexive(props[i]);
  }

  /** The entry a first `add` of `props` stores under its key: the last descriptor with that key. */
  predicate InFirst(e: Entry, props: seq<PropDesc>) {
    LastWithName(props, e.name) == Some(e.desc)
  }

  /** A populated map holds exactly the entries `InFirst` names. */
  lemma PopulatedEntries(es: Entries, props: seq<PropDesc>)
    requires DistinctNames(es)
    requires forall n :: Lookup(es, n) == LastWithName(props, n)
    ensures forall e :: e in es <==> InFirst(e, props)
  {
    forall e ensures e in es <==> InFirst(e, props) {
      if e in es {
        LookupEntry(es, e);
      }
      if InFirst(e, props) {
        assert Lookup(es, e.name) == Some(e.desc);
      }
    }
  }

  /**
   * `PropertyDefMerger`: `None` while no list has been added (or after a
   * list was found missing), else the merged entries.
   */
  datatype Merger = Merger(entries: Option<Entries>)

  predicate ValidMerger(m: Merger) {
    m.entries.Some? ==> DistinctNames(m.entries.value)
  }

  /** `isNotEmpty`: some list was added and at least one entry survived. */
  function IsNotEmpty(m: Merger): (r: bool)
    ensures r <==> m.entries.Some? && exists e :: e in m.entries.value
  {
    if m.entries.Some? && |m.entries.value| > 0 then
      assert m.entries.value[0] in m.entries.value;
      true
    else false
  }

  /**
   * `add`: the first list fills the map, a later one keeps only the entries
   * whose key it declares without conflict.
   */
  method Add(m: Merger, props: seq<PropDesc>) returns (r: Merger)
    requires ValidMerger(m)
    ensures ValidMerger(r) && r.entries.Some?
    ensures m.entries.None? ==> forall n :: Lookup(r.entries.value, n) == LastWithName(props, n)
    ensures m.entries.None? ==> forall e :: e in r.entries.value <==> InFirst(e, props)
    ensures m.entries.None? ==> InKeyOrder(r.entries.value, props)
    ensures m.entries.Some? ==> forall e :: e in r.entries.value <==> e in m.entries.value && Kept(e, props)
    ensures m.entries.Some? ==> IsSubsequence(r.entries.value, m.entries.value)
    ensures forall e :: e in r.entries.value ==> Declares(props, e.name)
  {
    if m.entries.Some? {
      var es := Intersect(m.entries.value, props);
      r := Merger(Some(es));
    } else {
      var es := Populate(props);
      r := Merger(Some(es));
      PopulatedEntries(es, props);
      forall e | e in es ensures Declares(props, e.name) {
        LookupEntry(es, e);
        var d := LastWithName(props, e.name).value;
        var j :| 0 <= j < |props| && props[j] == d;
      }
    }
  }

  /** `remove`: drops one key from a filled map; a map never filled stays so. */
  function Remove(m: Merger, name: string): (r: Merger)
    requires ValidMerger(m)
    ensures ValidMerger(r)
    ensures r.entries.Some? <==> m.entries.Some?
    ensures m.entries.Some? ==> forall e :: e in r.entries.value <==> e in m.entries.value && e.name != name
    ensures m.entries.Some? ==> name !in Names(r.entries.value)
    ensures m.entries.Some? ==> IsSubsequence(r.entries.value, m.entries.value)
  {
    if m.entries.Some? then
      var es := Without(m.entries.value, {name});
      WithoutIsSubsequence(m.entries.value, {name});
      WithoutDistinct(m.entries.value, {name});
      WithoutNames(m.entries.value, {name}, name);
      Merger(Some(es))
    else m
  }

  /** Every loader had its function descriptor. */
  predicate AllReady<T>(xs: seq<Option<T>>) {
    forall i :: 0 <= i < |xs| ==> xs[i].Some?
  }

  /**
   * Key `n` is declared by a merged descriptor of every function seen in the
   * first `upto` loaders: for each loader, some loader no later than it with
   * the same function name declares `n`.
   */
  ghost predicate DeclaredForAll(n: string, descs: seq<Option<FunctionDesc>>, upto: nat)
    requires upto <= |descs| && AllReady(descs)
  {
    forall i :: 0 <= i < upto ==> Covered(n, descs, i)
  }

  /** Some loader no later than loader `i` and of the same function declares `n`. */
  ghost predicate Covered(n: string, descs: seq<Option<FunctionDesc>>, i: nat)
    requires i < |descs| && AllReady(descs)
  {
    exists k :: CoveredBy(n, descs, i, k)
  }

  /** Loader `k`, no later than loader `i` and of the same function, declares `n`. */
  predicate CoveredBy(n: string, descs: seq<Option<FunctionDesc>>, i: nat, k: nat)
    requires i < |descs| && AllReady(descs)
  {
    k <= i && descs[k].value.name == descs[i].value.name && Declares(descs[k].value.properties, n)
  }

  /** Loader `j` is the first with its function name. */
  predicate FirstOfName(descs: seq<Option<FunctionDesc>>, j: nat)
    requires j < |descs| && AllReady(descs)
  {
    forall k :: 0 <= k < j ==> descs[k].value.name != descs[j].value.name
  }

  /** Entry `e` survives the list of every loader among `1..upto-1` that is the first of its function. */
  predicate KeptByLater(e: Entry, descs: seq<Option<FunctionDesc>>, upto: nat)
    requires upto <= |descs| && AllReady(descs)
  {
    forall j :: 0 < j < upto && FirstOfName(descs, j) ==> Kept(e, descs[j].value.properties)
  }

  /** One more loader: it constrains the entries only when it is the first of its function. */
  lemma KeptByLaterExtend(e: Entry, descs: seq<Option<FunctionDesc>>, i: nat)
    requires i < |descs| && AllReady(descs)
    ensures KeptByLater(e, descs, i + 1) <==>
      KeptByLater(e, descs, i) && (0 < i && FirstOfName(descs, i) ==> Kept(e, descs[i].value.properties))
  {
  }

  /** A name not yet listed can be appended without a repeat. */
  lemma DistinctSnoc(s: seq<string>, n: string)
    requires Distinct(s) && n !in s
    ensures Distinct(s + [n])
  {
    var s' := s + [n];
    forall a, b | 0 <= a < b < |s'| ensures s'[a] != s'[b] {
      if b == |s| {
        assert s'[a] == s[a] && s[a] in s;
      }
    }
  }

  /** What the descriptor merge knows after `i` ready loaders. */
  ghost predicate DescMergeInv(descs: seq<Option<FunctionDesc>>, i: nat, m: Merger, merged: seq<string>)
    requires i <= |descs| && AllReady(descs)
  {
    && ValidMerger(m)
    && (m.entries.Some? <==> i > 0)
    && Distinct(merged)
    && (forall k :: 0 <= k < i ==> descs[k].value.name in merged)
    && (forall n :: n in merged ==> exists k :: 0 <= k < i && descs[k].value.name == n)
    && (m.entries.Some? ==> forall e :: e in m.entries.value ==> DeclaredForAll(e.name, descs, i))
    && (i > 0 ==> forall e :: e in m.entries.value <==>
          InFirst(e, descs[0].value.properties) && KeptByLater(e, descs, i))
  }

  /** A loader whose function was already merged adds nothing, and every surviving key stays declared. */
  lemma SkipStep(descs: seq<Option<FunctionDesc>>, i: nat, m: Merger, merged: seq<string>)
    requires i < |descs| && AllReady(descs) && DescMergeInv(descs, i, m, merged)
    requires descs[i].value.name in merged
    ensures DescMergeInv(descs, i + 1, m, merged)
  {
    var n := descs[i].value.name;
    var k0 :| 0 <= k0 < i && descs[k0].value.name == n;
    forall e | e in m.entries.value ensures DeclaredForAll(e.name, descs, i + 1) {
      DeclaredExtend(e.name, descs, i, k0);
    }
    assert !FirstOfName(descs, i);
    forall e ensures KeptByLater(e, descs, i + 1) <==> KeptByLater(e, descs, i) {
      KeptByLaterExtend(e, descs, i);
    }
  }

  /** A loader whose function name an earlier loader `k0` had is covered by what covers `k0`. */
  lemma DeclaredExtend(n: string, descs: seq<Option<FunctionDesc>>, i: nat, k0: nat)
    requires i < |descs| && AllReady(descs) && k0 < i
    requires descs[k0].value.name == descs[i].value.name
    requires DeclaredForAll(n, descs, i)
    ensures DeclaredForAll(n, descs, i + 1)
  {
    assert Covered(n, descs, k0);
    var k :| CoveredBy(n, descs, k0, k);
    assert CoveredBy(n, descs, i, k);
  }

  /** A loader with a new function merges its list: surviving keys are declared by it too. */
  lemma MergeStep(descs: seq<Option<FunctionDesc>>, i: nat, m: Merger, merged: seq<string>, r: Merger)
    requires i < |descs| && AllReady(descs) && DescMergeInv(descs, i, m, merged)
    requires descs[i].value.name !in merged
    requires ValidMerger(r) && r.entries.Some?
    requires m.entries.None? ==> forall e :: e in r.entries.value <==> InFirst(e, descs[i].value.properties)
    requires m.entries.Some? ==> forall e :: e in r.entries.value <==> e in m.entries.value && Kept(e, descs[i].value.properties)
    requires forall e :: e in r.entries.value ==> Declares(descs[i].value.properties, e.name)
    ensures DescMergeInv(descs, i + 1, r, merged + [descs[i].value.name])
  {
    assert FirstOfName(descs, i) by {
      forall k | 0 <= k < i ensures descs[k].value.name != descs[i].value.name {
        assert descs[k].value.name in merged;
      }
    }
    forall e ensures e in r.entries.value <==> InFirst(e, descs[0].value.properties) && KeptByLater(e, descs, i + 1) {
      KeptByLaterExtend(e, descs, i);
    }
    var merged' := merged + [descs[i].value.name];
    forall a, b | 0 <= a < b < |merged'| ensures merged'[a] != merged'[b] {
      if b == |merged| {
        assert merged'[a] == merged[a] && merged[a] in merged;
      }
    }
    forall n | n in merged' ensures exists k :: 0 <= k < i + 1 && descs[k].value.name == n {
      if n != descs[i].value.name {
        assert n in merged;
      }
    }
    forall e | e in r.entries.value ensures DeclaredForAll(e.name, descs, i + 1) {
      forall j | 0 <= j < i + 1
        ensures Covered(e.name, descs, j)
      {
        if j == i {
          assert CoveredBy(e.name, descs, i, i);
        } else {
          assert DeclaredForAll(e.name, descs, i);
        }
      }
    }
  }

  /**
   * The function-descriptor half of the panel's render: each loader's
   * function merged once per function name, the whole merge dropped when a
   * loader has no descriptor yet, and `output` removed for a sub-block.
   */
  method MergeDescs(descs: seq<Option<FunctionDesc>>, isSubBlock: bool) returns (m: Merger, merged: seq<string>)
    ensures ValidMerger(m)
    ensures !AllReady(descs) ==> m.entries.None?
    ensures AllReady(descs) ==> (m.entries.Some? <==> |descs| > 0)
    ensures Distinct(merged)
    ensures AllReady(descs) ==> forall i :: 0 <= i < |descs| ==> descs[i].value.name in merged
    ensures isSubBlock && m.entries.Some? ==> "output" !in Names(m.entries.value)
    ensures AllReady(descs) && m.entries.Some? ==>
      forall e :: e in m.entries.value ==> DeclaredForAll(e.name, descs, |descs|)
    ensures AllReady(descs) && |descs| > 0 ==>
      forall e :: e in m.entries.value <==>
        InFirst(e, descs[0].value.properties) && KeptByLater(e, descs, |descs|) && !(isSubBlock && e.name == "output")
    ensures AllReady(descs) && |descs| > 0 ==> InKeyOrder(m.entries.value, descs[0].value.properties)
  {
    m := Merger(None);
    merged := [];
    var i := 0;
    while i < |descs|
      invariant 0 <= i <= |descs|
      invariant AllReady(descs[..i])
      invariant Distinct(merged) && ValidMerger(m)
      invariant AllReady(descs) ==> DescMergeInv(descs, i, m, merged)
      invariant i == 0 ==> m.entries.None?
      invariant AllReady(descs) && m.entries.Some? ==> InKeyOrder(m.entries.value, descs[0].value.properties)
    {
      if descs[i].None? {
        m := Merger(None);
        break;
      }
      var d := descs[i].value;
      assert AllReady(descs[..i + 1]) by {
        assert forall k :: 0 <= k < i ==> descs[..i + 1][k] == descs[..i][k];
      }
      if d.name !in merged {
        var r := Add(m, d.properties);
        if AllReady(descs) {
          MergeStep(descs, i, m, merged, r);
          MergeKeepsOrder(descs[0].value.properties, d.properties, m, r);
        }
        DistinctSnoc(merged, d.name);
        merged := merged + [d.name];
        m := r;
      } else if AllReady(descs) {
        SkipStep(descs, i, m, merged);
      }
      i := i + 1;
    }
    if isSubBlock {
      var r := Remove(m, "output");
      if AllReady(descs) && |descs| > 0 {
        SubsequenceKeepsOrder(r.entries.value, m.entries.value, descs[0].value.properties);
      }
      m := r;
    }
  }

  /** Entry `e` survives the `#more` lists `1..upto-1`. */
  predicate KeptByMores(e: Entry, mores: seq<Option<seq<PropDesc>>>, upto: nat)
    requires upto <= |mores| && forall k :: 0 <= k < upto ==> mores[k].Some?
  {
    forall j :: 1 <= j < upto ==> Kept(e, mores[j].value)
  }

  /** What the `#more` merge knows after `i` ready lists. */
  ghost predicate MoreMergeInv(mores: seq<Option<seq<PropDesc>>>, i: nat, m: Merger)
    requires i <= |mores|
  {
    && ValidMerger(m)
    && (forall k :: 0 <= k < i ==> mores[k].Some?)
    && (m.entries.Some? <==> i > 0)
    && (m.entries.Some? ==> forall e, k :: e in m.entries.value && 0 <= k < i ==> Declares(mores[k].value, e.name))
    && (i > 0 ==> forall e :: e in m.entries.value <==> InFirst(e, mores[0].value) && KeptByMores(e, mores, i))
  }

  /** Adding ready list `i` keeps `MoreMergeInv`. */
  lemma MoreStep(mores: seq<Option<seq<PropDesc>>>, i: nat, m: Merger, r: Merger)
    requires i < |mores| && mores[i].Some?
    requires MoreMergeInv(mores, i, m)
    requires ValidMerger(r) && r.entries.Some?
    requires m.entries.None? ==> forall e :: e in r.entries.value <==> InFirst(e, mores[i].value)
    requires m.entries.Some? ==> forall e :: e in r.entries.value <==> e in m.entries.value && Kept(e, mores[i].value)
    requires forall e :: e in r.entries.value ==> Declares(mores[i].value, e.name)
    ensures MoreMergeInv(mores, i + 1, r)
  {
  }

  /** Every loader's `#more` list merged in turn, the whole merge dropped when one is missing. */
  method MergeMore(mores: seq<Option<seq<PropDesc>>>) returns (m: Merger)
    ensures ValidMerger(m)
    ensures !AllReady(mores) ==> m.entries.None?
    ensures AllReady(mores) ==> (m.entries.Some? <==> |mores| > 0)
    ensures AllReady(mores) && m.entries.Some? ==>
      forall e, i :: e in m.entries.value && 0 <= i < |mores| ==> Declares(mores[i].value, e.name)
    ensures AllReady(mores) && |mores| > 0 ==>
      forall e :: e in m.entries.value <==>
        InFirst(e, mores[0].value) && forall j :: 1 <= j < |mores| ==> Kept(e, mores[j].value)
    ensures m.entries.Some? ==> |mores| > 0 && mores[0].Some? && InKeyOrder(m.entries.value, mores[0].value)
  {
    m := Merger(None);
    for i := 0 to |mores|
      invariant MoreMergeInv(mores, i, m)
      invariant m.entries.Some? ==> InKeyOrder(m.entries.value, mores[0].value)
    {
      if mores[i].None? {
        return Merger(None);
      }
      var r := Add(m, mores[i].value);
      MoreStep(mores, i, m, r);
      MergeKeepsOrder(mores[0].value, mores[i].value, m, r);
      m := r;
    }
  }

  /** The editor `render` creates for an entry. */
  datatype Child = GroupEditor(key: string, group: PropDesc) | PropertyEditor(key: string, prop: PropDesc)

  /** Whether `render` creates an editor for a descriptor: a group, or a plain descriptor with a non-empty name. */
  predicate Renders(d: PropDesc) {
    d.Group? || (d.name.Some? && d.name.value != "")
  }

  /** The editor `render` creates for a renderable entry. */
  function ChildFor(e: Entry): Child {
    if e.desc.Group? then GroupEditor(e.name, e.desc) else PropertyEditor(e.name, e.desc)
  }

  /** The entry an editor was created for. */
  function EntryOf(c: Child): Entry {
    match c
    case GroupEditor(k, g) => Entry(k, g)
    case PropertyEditor(k, p) => Entry(k, p)
  }

  /** `render`: one editor per entry that has one, in map order, keyed by the entry's name. */
  function Render(es: Entries): (r: seq<Child>)
    ensures |r| <= |es|
    ensures forall e :: e in es && Renders(e.desc) ==> ChildFor(e) in r
    ensures forall c :: c in r ==> EntryOf(c) in es && Renders(EntryOf(c).desc) && ChildFor(EntryOf(c)) == c
    decreases |es|
  {
    if |es| == 0 then []
    else
      var rest := Render(es[1..]);
      if Renders(es[0].desc) then [ChildFor(es[0])] + rest
      else rest
  }

  /** The positions at or after `from` of the entries `render` draws, in map order. */
  function RenderIndices(es: Entries, from: nat): (r: seq<nat>)
    requires from <= |es|
    ensures forall k :: 0 <= k < |r| ==> from <= r[k] < |es| && Renders(es[r[k]].desc)
    ensures forall a, b :: 0 <= a < b < |r| ==> r[a] < r[b]
    ensures forall i :: from <= i < |es| && Renders(es[i].desc) ==> i in r
    decreases |es| - from
  {
    if from == |es| then []
    else if Renders(es[from].desc) then [from] + RenderIndices(es, from + 1)
    else RenderIndices(es, from + 1)
  }

  /** Editor `k` of `r` is the one for entry `idx[k]` of `es`. */
  predicate IndexedBy(r: seq<Child>, es: Entries, idx: seq<nat>) {
    |r| == |idx| && forall k :: 0 <= k < |r| ==> idx[k] < |es| && r[k] == ChildFor(es[idx[k]])
  }

  /** `render` draws one editor per renderable entry of the whole map, in map order and without repeats. */
  lemma RenderInOrder(es: Entries)
    ensures |Render(es)| == |RenderIndices(es, 0)|
    ensures forall k :: 0 <= k < |Render(es)| ==> Render(es)[k] == ChildFor(es[RenderIndices(es, 0)[k]])
  {
    RenderFollowsIndices(es, 0);
    assert es[0..] == es;
  }

  /** On a map in key order, the editors come in the order `props` first declares their keys. */
  lemma RenderInKeyOrder(es: Entries, props: seq<PropDesc>)
    requires InKeyOrder(es, props)
    ensures forall a, b :: 0 <= a < b < |Render(es)| ==>
      FirstIndex(props, Render(es)[a].key) < FirstIndex(props, Render(es)[b].key)
  {
    RenderInOrder(es);
    var r, idx := Render(es), RenderIndices(es, 0);
    forall a, b | 0 <= a < b < |r| ensures FirstIndex(props, r[a].key) < FirstIndex(props, r[b].key) {
      assert r[a].key == es[idx[a]].name && r[b].key == es[idx[b]].name;
      assert idx[a] < idx[b];
    }
  }

  /** `render` on a suffix of the map, indexed into the whole map. */
  lemma {:induction false} RenderFollowsIndices(es: Entries, from: nat)
    requires from <= |es|
    ensures IndexedBy(Render(es[from..]), es, RenderIndices(es, from))
    decreases |es| - from
  {
    if from < |es| {
      RenderFollowsIndices(es, from + 1);
      var tail := es[from..];
      assert tail[1..] == es[from + 1..];
      assert tail[0] == es[from];
      if Renders(es[from].desc) {
        IndexedCons(ChildFor(es[from]), Render(es[from + 1..]), es, from, RenderIndices(es, from + 1));
      }
    }
  }

  /** One more editor at the front, for entry `from`. */
  lemma IndexedCons(c: Child, rest: seq<Child>, es: Entries, from: nat, idx: seq<nat>)
    requires from < |es| && c == ChildFor(es[from])
    requires IndexedBy(rest, es, idx)
    ensures IndexedBy([c] + rest, es, [from] + idx)
  {
    forall k | 0 < k < |rest| + 1 ensures ([c] + rest)[k] == rest[k - 1] && ([from] + idx)[k] == idx[k - 1] {
    }
  }


}
