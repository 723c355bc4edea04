/**
 * The editor row of one property across a multi-selection: the paths it
 * writes and binds, the sub-block rule, the drag-to-bind pairing, and the
 * aggregation of the selected blocks' values into the lock decision.
 * Writes and bindings sent to the connection are returned as records.
 */
module PropertyEditor {
  import opened Wrappers
  import opened Values
  import Strings

  /** `<key>.<name>`: the path of property `name` on block `key`. */
  function FieldPath(key: string, name: string): string {
    key + "." + name
  }

  /** Distinct blocks give distinct paths for the same property. */
  lemma FieldPathInjective(a: string, b: string, name: string)
    ensures FieldPath(a, name) == FieldPath(b, name) <==> a == b
  {
    if FieldPath(a, name) == FieldPath(b, name) {
      assert (a + ".") + name == (b + ".") + name;
      Strings.SuffixCancel(a + ".", b + ".", name);
      Strings.SuffixCancel(a, b, ".");
    }
  }

  /** The paths of property `name` on every selected block, in selection order. */
  function Fields(keys: seq<string>, name: string): (r: seq<string>)
    ensures |r| == |keys|
    ensures forall i :: 0 <= i < |keys| ==> r[i] == FieldPath(keys[i], name)
  {
    seq(|keys|, i requires 0 <= i < |keys| => FieldPath(keys[i], name))
  }

  predicate DistinctStrings(s: seq<string>) {
    forall i, j :: 0 <= i < j < |s| ==> s[i] != s[j]
  }

  /** Distinct selected blocks give distinct field paths. */
  lemma FieldsDistinct(keys: seq<string>, name: string)
    requires DistinctStrings(keys)
    ensures DistinctStrings(Fields(keys, name))
  {
    var fs := Fields(keys, name);
    forall i, j | 0 <= i < j < |fs| ensures fs[i] != fs[j] {
      FieldPathInjective(keys[i], keys[j], name);
    }
  }

  /** The binding path that marks a property as driven by its own sub-block: `~<name>.output`. */
  function SubBlockPath(name: string): string {
    "~" + name + ".output"
  }

  /** `PropertyLoader.subBlock`: whether a binding path is the property's own sub-block output. */
  function IsSubBlock(bindingPath: Option<string>, name: string): (r: bool)
    ensures r <==> bindingPath.Some? && bindingPath.value == SubBlockPath(name)
  {
    bindingPath == Some(SubBlockPath(name))
  }

  /** A binding path marks at most one property name as a sub-block. */
  lemma SubBlockPathInjective(a: string, b: string)
    ensures SubBlockPath(a) == SubBlockPath(b) <==> a == b
  {
    if SubBlockPath(a) == SubBlockPath(b) {
      Strings.SuffixCancel("~" + a, "~" + b, ".output");
      Strings.PrefixCancel("~", a, b);
    }
  }

  /** What a loader has received for its field: the value and the binding path (null and undefined alike are `None`). */
  datatype Cache = Cache(value: Value, bindingPath: Option<string>)

  datatype Loader = Loader(cache: Option<Cache>, subBlock: bool)

  /**
   * The loader's listener: the cache is always replaced, and the sub-block
   * flag is recomputed only when the update touched the value or the binding.
   */
  function OnUpdate(l: Loader, name: string, cache: Cache, touched: bool): (r: Loader)
    ensures r.cache == Some(cache)
    ensures touched ==> (r.subBlock <==> cache.bindingPath == Some(SubBlockPath(name)))
    ensures !touched ==> r.subBlock == l.subBlock
  {
    Loader(Some(cache), if touched then IsSubBlock(cache.bindingPath, name) else l.subBlock)
  }

  /** `buildSubBlockKeys`: `<key>.~<name>` for every selected block, in order. */
  function SubBlockKeys(keys: seq<string>, name: string): (r: seq<string>)
    ensures |r| == |keys|
    ensures forall i :: 0 <= i < |keys| ==> r[i] == keys[i] + ".~" + name
  {
    seq(|keys|, i requires 0 <= i < |keys| => keys[i] + ".~" + name)
  }

  /** The sub-block keys are the field paths of the property `~<name>`, so distinct blocks keep distinct sub-blocks. */
  lemma SubBlockKeysAreFields(keys: seq<string>, name: string)
    ensures SubBlockKeys(keys, name) == Fields(keys, "~" + name)
    ensures DistinctStrings(keys) ==> DistinctStrings(SubBlockKeys(keys, name))
  {
    forall i | 0 <= i < |keys|
      ensures SubBlockKeys(keys, name)[i] == Fields(keys, "~" + name)[i]
    {
      assert keys[i] + ".~" + name == keys[i] + "." + ("~" + name);
    }
    if DistinctStrings(keys) {
      FieldsDistinct(keys, "~" + name);
    }
  }

  /** A request sent to the connection. */
  datatype Request =
    | SetValue(path: string, value: Value)
    | SetBinding(path: string, from: string)

  /** `onChange`: the new value written to the property of every selected block. */
  function OnChange(keys: seq<string>, name: string, v: Value): (r: seq<Request>)
    ensures |r| == |keys|
    ensures forall i :: 0 <= i < |keys| ==> r[i] == SetValue(FieldPath(keys[i], name), v)
  {
    seq(|keys|, i requires 0 <= i < |keys| => SetValue(FieldPath(keys[i], name), v))
  }

  /** The field values a sequence of value writes leaves behind, the last write to a path winning. */
  function ApplyValues(store: map<string, Value>, rs: seq<Request>): (r: map<string, Value>)
    ensures forall p :: p in store ==> p in r
    decreases |rs|
  {
    if |rs| == 0 then store
    else
      var s := if rs[0].SetValue? then store[rs[0].path := rs[0].value] else store;
      ApplyValues(s, rs[1..])
  }

  /** After `onChange`, every selected block's property holds the value, and no other field changed. */
  lemma {:induction false} OnChangeSetsEveryField(store: map<string, Value>, keys: seq<string>, name: string, v: Value)
    ensures forall k :: k in keys ==>
      (FieldPath(k, name) in ApplyValues(store, OnChange(keys, name, v))
       && ApplyValues(store, OnChange(keys, name, v))[FieldPath(k, name)] == v)
    ensures forall p :: p in store && p !in Fields(keys, name) ==>
      (p in ApplyValues(store, OnChange(keys, name, v)) && ApplyValues(store, OnChange(keys, name, v))[p] == store[p])
    decreases |keys|
  {
    if |keys| > 0 {
      var store' := store[FieldPath(keys[0], name) := v];
      OnChangeSetsEveryField(store', keys[1..], name, v);
      assert OnChange(keys, name, v)[1..] == OnChange(keys[1..], name, v);
      assert forall k :: k in keys ==> k == keys[0] || k in keys[1..];
      forall k | k in keys && k != keys[0] && FieldPath(k, name) == FieldPath(keys[0], name)
        ensures false
      {
        FieldPathInjective(k, keys[0], name);
      }
    }
  }

  /** The drop effect a drag-over sets. */
  datatype DropEffect = NoDrop | Link

  /**
   * `onDragOver`: a read-only target refuses; otherwise a drag of one field,
   * or of as many fields as there are selected blocks, links unless it drags
   * exactly the target's own fields.
   */
  function OnDragOver(readonly: bool, dragFields: Option<seq<string>>, keys: seq<string>, name: string): (r: DropEffect)
    ensures r == Link <==>
      && !readonly
      && dragFields.Some?
      && (|dragFields.value| == 1 || |dragFields.value| == |keys|)
      && dragFields.value != Fields(keys, name)
  {
    if readonly then NoDrop
    else if dragFields.Some? && (|dragFields.value| == 1 || |dragFields.value| == |keys|) then
      if Fields(keys, name) != dragFields.value then Link else NoDrop
    else NoDrop
  }

  /** One dragged field bound to every target field that is not the field itself. */
  function BindAllTo(fields: seq<string>, from: string): (r: seq<Request>)
    ensures forall q :: q in r ==> q.SetBinding? && q.from == from && q.path in fields && q.path != from
    ensures forall f :: f in fields && f != from ==> SetBinding(f, from) in r
    decreases |fields|
  {
    if |fields| == 0 then []
    else
      var rest := BindAllTo(fields[1..], from);
      assert forall f :: f in fields ==> f == fields[0] || f in fields[1..];
      if fields[0] != from then [SetBinding(fields[0], from)] + rest else rest
  }

  /** Target `i` bound to dragged field `i`, skipping the pairs that are the same field. */
  function BindPairwise(fields: seq<string>, drag: seq<string>): (r: seq<Request>)
    requires |fields| == |drag|
    ensures forall q :: q in r ==> q.SetBinding? && q.path != q.from
    ensures forall q :: q in r ==> exists i :: 0 <= i < |fields| && q == SetBinding(fields[i], drag[i])
    ensures forall i :: 0 <= i < |fields| && fields[i] != drag[i] ==> SetBinding(fields[i], drag[i]) in r
    decreases |fields|
  {
    if |fields| == 0 then []
    else
      var rest := BindPairwise(fields[1..], drag[1..]);
      var r := if fields[0] != drag[0] then [SetBinding(fields[0], drag[0])] + rest else rest;
      assert forall q :: q in r ==> q in rest || q == SetBinding(fields[0], drag[0]);
      forall q | q in rest ensures exists i :: 0 <= i < |fields| && q == SetBinding(fields[i], drag[i]) {
        var j :| 0 <= j < |fields| - 1 && q == SetBinding(fields[1..][j], drag[1..][j]);
        assert q == SetBinding(fields[j + 1], drag[j + 1]);
      }
      forall i | 0 <= i < |fields| && fields[i] != drag[i] ensures SetBinding(fields[i], drag[i]) in r {
        if i > 0 {
          assert fields[1..][i - 1] == fields[i] && drag[1..][i - 1] == drag[i];
        }
      }
      r
  }

  /**
   * `onDrop`: one dragged field is bound to every target field; as many
   * dragged fields as targets are bound pairwise; any other drag binds
   * nothing. A field is never bound to itself.
   */
  function OnDrop(dragFields: Option<seq<string>>, keys: seq<string>, name: string): (r: seq<Request>)
    ensures forall q :: q in r ==> q.SetBinding? && q.path != q.from && q.path in Fields(keys, name)
    ensures dragFields.None? ==> r == []
    ensures dragFields.Some? && |dragFields.value| == 1 ==>
      forall q :: q in r ==> q.from == dragFields.value[0]
    ensures dragFields.Some? && |dragFields.value| == 1 ==>
      forall i :: 0 <= i < |keys| && FieldPath(keys[i], name) != dragFields.value[0] ==>
        SetBinding(FieldPath(keys[i], name), dragFields.value[0]) in r
    ensures dragFields.Some? && |dragFields.value| != 1 && |dragFields.value| == |keys| ==>
      forall i :: 0 <= i < |keys| && FieldPath(keys[i], name) != dragFields.value[i] ==>
        SetBinding(FieldPath(keys[i], name), dragFields.value[i]) in r
    ensures dragFields.Some? && |dragFields.value| != 1 && |dragFields.value| == |keys| ==>
      forall q :: q in r ==> exists i :: 0 <= i < |keys| && q == SetBinding(FieldPath(keys[i], name), dragFields.value[i])
    ensures dragFields.Some? && |dragFields.value| != 1 && |dragFields.value| != |keys| ==> r == []
  {
    if dragFields.None? then []
    else
      var fields := Fields(keys, name);
      var drag := dragFields.value;
      if |drag| == 1 then BindAllTo(fields, drag[0])
      else if |drag| == |fields| then
        var r := BindPairwise(fields, drag);
        forall q | q in r ensures q.path in fields {
          var i :| 0 <= i < |fields| && q == SetBinding(fields[i], drag[i]);
        }
        r
      else []
  }

  /** Dragging a field list onto itself binds nothing. */
  lemma {:induction false} PairwiseSelf(fields: seq<string>)
    ensures BindPairwise(fields, fields) == []
    decreases |fields|
  {
    if |fields| > 0 {
      PairwiseSelf(fields[1..]);
    }
  }

  /**
   * Drag-over and drop agree on a writable target: a refused drag binds
   * nothing, and an accepted one over distinct selected blocks binds at
   * least one field.
   */
  lemma DropFollowsDragOver(dragFields: Option<seq<string>>, keys: seq<string>, name: string)
    requires DistinctStrings(keys)
    ensures OnDragOver(false, dragFields, keys, name) == NoDrop ==> OnDrop(dragFields, keys, name) == []
    ensures OnDragOver(false, dragFields, keys, name) == Link && |keys| > 0 ==> |OnDrop(dragFields, keys, name)| > 0
  {
    var fields := Fields(keys, name);
    if dragFields.Some? {
      var drag := dragFields.value;
      if OnDragOver(false, dragFields, keys, name) == NoDrop && (|drag| == 1 || |drag| == |keys|) {
        assert drag == fields;
        if |drag| == 1 {
          assert BindAllTo(fields, drag[0]) == BindAllTo(fields[1..], drag[0]);
        } else {
          PairwiseSelf(fields);
        }
      }
      if OnDragOver(false, dragFields, keys, name) == Link && |keys| > 0 {
        if |drag| == 1 {
          if |keys| == 1 {
            assert SetBinding(fields[0], drag[0]) in OnDrop(dragFields, keys, name);
          } else {
            FieldsDistinct(keys, name);
            var i := if fields[0] != drag[0] then 0 else 1;
            assert SetBinding(fields[i], drag[0]) in OnDrop(dragFields, keys, name);
          }
        } else {
          var i :| 0 <= i < |fields| && fields[i] != drag[i];
          assert SetBinding(fields[i], drag[i]) in OnDrop(dragFields, keys, name);
        }
      }
    }
  }

  /** What the row shows about the selected blocks once every loader has its cache. */
  datatype Aggregate = Aggregate(
    value: Value,
    valueSame: bool,
    bindingPath: Option<string>,
    hasBinding: bool,
    bindingSame: bool,
    subBlock: bool)

  predicate AllCached(loaders: seq<Loader>) {
    forall i :: 0 <= i < |loaders| ==> loaders[i].cache.Some?
  }

  /**
   * The aggregation in `renderImpl`: the first loader's value and binding
   * path, compared with every other loader's; `None` when some loader has no
   * cache yet.
   */
  method Aggregation(loaders: seq<Loader>) returns (r: Option<Aggregate>)
    requires |loaders| > 0
    ensures r.None? <==> !AllCached(loaders)
    ensures r.Some? ==> r.value.value == loaders[0].cache.value.value
    ensures r.Some? ==> r.value.bindingPath == loaders[0].cache.value.bindingPath
    ensures r.Some? ==> (r.value.valueSame <==>
      forall i :: 0 <= i < |loaders| ==> loaders[i].cache.value.value == loaders[0].cache.value.value)
    ensures r.Some? ==> (r.value.hasBinding <==>
      exists i :: 0 <= i < |loaders| && loaders[i].cache.value.bindingPath.Some?)
    ensures r.Some? ==> (r.value.bindingSame <==>
      forall i :: 0 <= i < |loaders| ==> loaders[i].cache.value.bindingPath == loaders[0].cache.value.bindingPath)
    ensures r.Some? ==> (r.value.subBlock <==> forall i :: 0 <= i < |loaders| ==> loaders[i].subBlock)
  {
    if loaders[0].cache.None? {
      return None;
    }
    var first := loaders[0].cache.value;
    var valueSame := true;
    var hasBinding := first.bindingPath.Some?;
    var bindingSame := true;
    var subBlock := loaders[0].subBlock;
    for i := 1 to |loaders|
      invariant AllCached(loaders[..i])
      invariant valueSame <==> forall j :: 0 <= j < i ==> loaders[j].cache.value.value == first.value
      invariant hasBinding <==> exists j :: 0 <= j < i && loaders[j].cache.value.bindingPath.Some?
      invariant bindingSame <==> forall j :: 0 <= j < i ==> loaders[j].cache.value.bindingPath == first.bindingPath
      invariant subBlock <==> forall j :: 0 <= j < i ==> loaders[j].subBlock
    {
      var c := loaders[i].cache;
      if c.None? {
        return None;
      }
      if c.value.value != first.value {
        valueSame := false;
      }
      if c.value.bindingPath != first.bindingPath {
        bindingSame := false;
      }
      if c.value.bindingPath.Some? {
        hasBinding := true;
      }
      if !loaders[i].subBlock {
        subBlock := false;
      }
      assert loaders[..i + 1] == loaders[..i] + [loaders[i]];
    }
    assert loaders[..|loaders|] == loaders;
    return Some(Aggregate(first.value, valueSame, first.bindingPath, hasBinding, bindingSame, subBlock));
  }

  /** The lock button: its icon and tooltip. */
  datatype LockIcon = LockIcon(icon: string, tooltip: string)

  /** The editor control, when the property's type has one. */
  datatype EditorView = EditorView(typ: string, locked: bool, editable: bool)

  /** What the row renders from an aggregate. */
  datatype RowView = RowView(
    inbound: Option<Option<string>>,
    lock: Option<LockIcon>,
    expand: Option<bool>,
    editor: Option<EditorView>,
    showSubBlock: bool)

  /** The property types that have a value editor. */
  const EditorTypes: set<string> := {"number", "string", "toggle", "select", "password"}

  const UnlockedTip := "Unlocked for editing\nDouble click to lock"
  const BindingTip := "Editing blocked by binding\nDouble click to edit"
  const InconsistentTip := "Inconsistent values\nDouble click to edit"

  /** A row is locked when a binding drives it or the selected blocks disagree on its value. */
  predicate Locked(a: Aggregate) {
    a.hasBinding || !a.valueSame
  }

  /**
   * The row `renderImpl` draws: the inbound marker (titled `???` when the
   * bindings differ) unless the row is a sub-block, the lock button on a
   * locked writable row, the expand icon on a sub-block, and the editor,
   * locked unless unlocked and editable unless read-only.
   */
  function Row(a: Aggregate, typ: Option<string>, readonly: bool, unlocked: bool, showSubBlock: bool): (r: RowView)
    ensures r.inbound.Some? <==> !a.subBlock && a.hasBinding
    ensures r.inbound.Some? ==> r.inbound.value == (if a.bindingSame then a.bindingPath else Some("???"))
    ensures r.lock.Some? <==> Locked(a) && !readonly
    ensures r.lock.Some? ==> r.lock.value.icon == (if unlocked then "edit" else "lock")
    ensures r.lock.Some? && unlocked ==> r.lock.value.tooltip == UnlockedTip
    ensures r.lock.Some? && !unlocked && a.hasBinding ==> r.lock.value.tooltip == BindingTip
    ensures r.lock.Some? && !unlocked && !a.hasBinding ==> !a.valueSame && r.lock.value.tooltip == InconsistentTip
    ensures r.expand.Some? <==> a.subBlock
    ensures r.expand.Some? ==> r.expand.value == showSubBlock
    ensures r.showSubBlock <==> a.subBlock && showSubBlock
    ensures r.editor.Some? <==> typ.Some? && typ.value in EditorTypes
    ensures r.editor.Some? ==> (r.editor.value.locked <==> Locked(a) && !unlocked)
    ensures r.editor.Some? ==> (r.editor.value.editable <==> !readonly)
  {
    var inbound :=
      if a.subBlock || !a.hasBinding then None
      else Some(if a.bindingSame then a.bindingPath else Some("???"));
    var lock :=
      if Locked(a) && !readonly then
        Some(LockIcon(
          if unlocked then "edit" else "lock",
          if unlocked then UnlockedTip else if a.hasBinding then BindingTip else InconsistentTip))
      else None;
    var editor :=
      if typ.Some? && typ.value in EditorTypes then Some(EditorView(typ.value, Locked(a) && !unlocked, !readonly))
      else None;
    RowView(inbound, lock, if a.subBlock then Some(showSubBlock) else None, editor, a.subBlock && showSubBlock)
  }

  /** A selection that agrees on its value and has no binding is shown unlocked, with no lock button. */
  lemma ConsistentRowIsUnlocked(loaders: seq<Loader>, a: Aggregate, typ: string, readonly: bool, unlocked: bool, show: bool)
    requires |loaders| > 0 && AllCached(loaders)
    requires forall i :: 0 <= i < |loaders| ==> loaders[i].cache.value == loaders[0].cache.value
    requires loaders[0].cache.value.bindingPath.None?
    requires a.valueSame <==> forall i :: 0 <= i < |loaders| ==> loaders[i].cache.value.value == loaders[0].cache.value.value
    requires a.hasBinding <==> exists i :: 0 <= i < |loaders| && loaders[i].cache.value.bindingPath.Some?
    requires typ in EditorTypes
    ensures Row(a, Some(typ), readonly, unlocked, show).lock.None?
    ensures Row(a, Some(typ), readonly, unlocked, show).inbound.None?
    ensures !Row(a, Some(typ), readonly, unlocked, show).editor.value.locked
  {
  }
}
