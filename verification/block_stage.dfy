/**
 * The block stage of the editor: which blocks are selected and what the
 * selection callback is told, the rectangle select, and the registry that
 * connects field views to the wires drawn into them. Blocks are kept in
 * the stage's insertion order; field views are identified by a number.
 */
module BlockStage {
  import opened Wrappers
  import Strings

  /** The height of a block's title bar, the part the rectangle select must cover. */
  const TitleHeight: real := 24.0

  datatype BlockItem = BlockItem(key: string, selected: bool, x: real, y: real, w: real)

  /** The stage: its blocks, whether the selection changed since it was last reported, and whether a callback listens. */
  datatype Stage = Stage(blocks: seq<BlockItem>, selectionChanged: bool, hasCallback: bool)

  predicate DistinctKeys(blocks: seq<BlockItem>) {
    forall i, j :: 0 <= i < j < |blocks| ==> blocks[i].key != blocks[j].key
  }

  predicate HasBlock(blocks: seq<BlockItem>, key: string) {
    exists i :: 0 <= i < |blocks| && blocks[i].key == key
  }

  /** Two block lists hold the same blocks in the same places, whatever their selection. */
  predicate SameLayout(a: seq<BlockItem>, b: seq<BlockItem>) {
    |a| == |b| && forall i :: 0 <= i < |a| ==> a[i].(selected := false) == b[i].(selected := false)
  }

  /** The keys of the selected blocks, in stage order. */
  function SelectedKeys(blocks: seq<BlockItem>): (r: seq<string>)
    ensures |r| <= |blocks|
    ensures forall k :: k in r <==> exists i :: 0 <= i < |blocks| && blocks[i].key == k && blocks[i].selected
    decreases |blocks|
  {
    if |blocks| == 0 then []
    else
      var rest := SelectedKeys(blocks[1..]);
      assert forall i :: 1 <= i < |blocks| ==> blocks[i] == blocks[1..][i - 1];
      if blocks[0].selected then [blocks[0].key] + rest else rest
  }

  /**
   * `onSelect`: the callback, if any, is given the selected keys, and the
   * selection counts as reported.
   */
  function OnSelect(st: Stage): (r: (Stage, Option<seq<string>>))
    ensures r.0 == st.(selectionChanged := false)
    ensures r.1.Some? <==> st.hasCallback
    ensures r.1.Some? ==> forall k :: k in r.1.value <==> exists i :: 0 <= i < |st.blocks| && st.blocks[i].key == k && st.blocks[i].selected
  {
    (st.(selectionChanged := false), if st.hasCallback then Some(SelectedKeys(st.blocks)) else None)
  }

  /** The target's selection flipped, every other block left alone. */
  function Toggle(blocks: seq<BlockItem>, key: string): (r: seq<BlockItem>)
    ensures SameLayout(r, blocks)
    ensures forall i :: 0 <= i < |blocks| ==> r[i].selected == (if blocks[i].key == key then !blocks[i].selected else blocks[i].selected)
  {
    seq(|blocks|, i requires 0 <= i < |blocks| =>
      if blocks[i].key == key then blocks[i].(selected := !blocks[i].selected) else blocks[i])
  }

  /** Exactly the target selected. */
  function SelectOnly(blocks: seq<BlockItem>, key: string): (r: seq<BlockItem>)
    ensures SameLayout(r, blocks)
    ensures forall i :: 0 <= i < |blocks| ==> (r[i].selected <==> blocks[i].key == key)
  {
    seq(|blocks|, i requires 0 <= i < |blocks| => blocks[i].(selected := blocks[i].key == key))
  }

  /** Whether the block under `key` is selected. */
  predicate IsSelected(blocks: seq<BlockItem>, key: string) {
    exists i :: 0 <= i < |blocks| && blocks[i].key == key && blocks[i].selected
  }

  /**
   * `selectBlock`: with ctrl the target's selection toggles; without, a
   * selected target changes nothing and an unselected one becomes the only
   * selection. The callback is told at once when the target ends up
   * unselected after a change, since no drag will follow to report it.
   */
  function SelectBlock(st: Stage, key: string, ctrl: bool): (r: (Stage, Option<seq<string>>))
    requires DistinctKeys(st.blocks)
    ensures SameLayout(r.0.blocks, st.blocks) && r.0.hasCallback == st.hasCallback
    ensures !HasBlock(st.blocks, key) ==> r == (st, None)
    ensures HasBlock(st.blocks, key) && ctrl ==>
      (forall i :: 0 <= i < |st.blocks| ==>
        (r.0.blocks[i].selected <==> (if st.blocks[i].key == key then !st.blocks[i].selected else st.blocks[i].selected)))
      && (r.0.selectionChanged <==> !IsSelected(st.blocks, key))
    ensures HasBlock(st.blocks, key) && ctrl ==> (r.1.Some? <==> IsSelected(st.blocks, key) && st.hasCallback)
    ensures HasBlock(st.blocks, key) && !ctrl && IsSelected(st.blocks, key) ==> r == (st, None)
    ensures HasBlock(st.blocks, key) && !ctrl && !IsSelected(st.blocks, key) ==>
      (forall i :: 0 <= i < |st.blocks| ==> (r.0.blocks[i].selected <==> st.blocks[i].key == key))
      && r.0.selectionChanged && r.1.None?
  {
    if !HasBlock(st.blocks, key) then (st, None)
    else if ctrl then
      var st' := st.(blocks := Toggle(st.blocks, key), selectionChanged := true);
      if IsSelected(st.blocks, key) then
        var (st'', rep) := OnSelect(st');
        (st'', rep)
      else (st', None)
    else if IsSelected(st.blocks, key) then (st, None)
    else (st.(blocks := SelectOnly(st.blocks, key), selectionChanged := true), None)
  }

  /** `onDragBlockEnd`: a selection change made by the click that began the drag is reported once the drag ends. */
  function OnDragBlockEnd(st: Stage): (r: (Stage, Option<seq<string>>))
    ensures !r.0.selectionChanged && r.0.blocks == st.blocks
    ensures r.1.Some? <==> st.selectionChanged && st.hasCallback
  {
    if st.selectionChanged then OnSelect(st) else (st, None)
  }

  /** A completed rectangle drag: its start point, its offset, and the modifier keys held. */
  datatype RectEvent = RectEvent(x1: real, y1: real, dx: real, dy: real, shift: bool, ctrl: bool)

  function Min(a: real, b: real): real { if a <= b then a else b }
  function Max(a: real, b: real): real { if a >= b then a else b }

  /** The rectangle, widened by one on every side, covers the block's width and title bar. */
  predicate Hit(b: BlockItem, e: RectEvent) {
    var x2 := e.dx + e.x1;
    var y2 := e.dy + e.y1;
    && b.x >= Min(e.x1, x2) - 1.0
    && b.w + b.x <= Max(e.x1, x2) + 1.0
    && b.y >= Min(e.y1, y2) - 1.0
    && b.y + TitleHeight <= Max(e.y1, y2) + 1.0
  }

  /** The selection a rectangle leaves: hit blocks selected, the others kept only when shift or ctrl is held. */
  function RectSelection(blocks: seq<BlockItem>, e: RectEvent): (r: seq<BlockItem>)
    ensures SameLayout(r, blocks)
    ensures forall i :: 0 <= i < |blocks| ==>
      (r[i].selected <==> Hit(blocks[i], e) || (blocks[i].selected && (e.shift || e.ctrl)))
  {
    seq(|blocks|, i requires 0 <= i < |blocks| =>
      if Hit(blocks[i], e) then blocks[i].(selected := true)
      else if blocks[i].selected && !(e.shift || e.ctrl) then blocks[i].(selected := false)
      else blocks[i])
  }

  /**
   * `onDragSelectEnd`: a cancelled drag (no event) changes nothing; a
   * completed one applies the rectangle and reports the selection.
   */
  function OnDragSelectEnd(st: Stage, e: Option<RectEvent>): (r: (Stage, Option<seq<string>>))
    ensures e.None? ==> r == (st, None)
    ensures e.Some? ==> SameLayout(r.0.blocks, st.blocks) && !r.0.selectionChanged
    ensures e.Some? ==> forall i :: 0 <= i < |st.blocks| ==>
      (r.0.blocks[i].selected <==> Hit(st.blocks[i], e.value) || (st.blocks[i].selected && (e.value.shift || e.value.ctrl)))
    ensures e.Some? ==> (r.1.Some? <==> st.hasCallback)
    ensures e.Some? && r.1.Some? ==> r.1.value == SelectedKeys(r.0.blocks)
  {
    if e.None? then (st, None)
    else OnSelect(st.(blocks := RectSelection(st.blocks, e.value)))
  }

  /** Repeating the same rectangle leaves the selection as the first one left it. */
  lemma RectSelectIdempotent(blocks: seq<BlockItem>, e: RectEvent)
    ensures RectSelection(RectSelection(blocks, e), e) == RectSelection(blocks, e)
  {
    var once := RectSelection(blocks, e);
    forall i | 0 <= i < |blocks| ensures RectSelection(once, e)[i] == once[i] {
      assert once[i].(selected := false) == blocks[i].(selected := false);
      assert Hit(once[i], e) == Hit(blocks[i], e);
    }
  }

  /** Toggling the same block twice with ctrl restores the selection. */
  lemma ToggleTwice(blocks: seq<BlockItem>, key: string)
    ensures Toggle(Toggle(blocks, key), key) == blocks
  {
    forall i | 0 <= i < |blocks| ensures Toggle(Toggle(blocks, key), key)[i] == blocks[i] {
      assert Toggle(blocks, key)[i].(selected := false) == blocks[i].(selected := false);
    }
  }

  /** After a plain click on an unselected block, the report at the end of the drag names that block alone. */
  lemma ClickThenDragReportsTarget(st: Stage, key: string)
    requires DistinctKeys(st.blocks) && HasBlock(st.blocks, key) && !IsSelected(st.blocks, key) && st.hasCallback
    ensures OnDragBlockEnd(SelectBlock(st, key, false).0).1 == Some([key])
  {
    var blocks := SelectBlock(st, key, false).0.blocks;
    var i :| 0 <= i < |st.blocks| && st.blocks[i].key == key;
    OnlyOneSelected(blocks, i);
  }

  /** When exactly block `i` is selected, the selected keys are its key alone. */
  lemma {:induction false} OnlyOneSelected(blocks: seq<BlockItem>, i: nat)
    requires i < |blocks|
    requires forall j :: 0 <= j < |blocks| ==> (blocks[j].selected <==> j == i)
    ensures SelectedKeys(blocks) == [blocks[i].key]
    decreases |blocks|
  {
    if i > 0 {
      OnlyOneSelected(blocks[1..], i - 1);
    } else {
      NoneSelected(blocks[1..]);
    }
  }

  lemma {:induction false} NoneSelected(blocks: seq<BlockItem>)
    requires forall j :: 0 <= j < |blocks| ==> !blocks[j].selected
    ensures SelectedKeys(blocks) == []
    decreases |blocks|
  {
    if |blocks| > 0 {
      NoneSelected(blocks[1..]);
    }
  }

  // The rectangle-select scene: `add` at (100,100) and `subtract` at (200,200), both 100 wide.

  const AddBlock := BlockItem("BlockStage5.add", false, 100.0, 100.0, 100.0)
  const SubtractBlock := BlockItem("BlockStage5.subtract", false, 200.0, 200.0, 100.0)

  /** Dragging from (90,90) to (310,310) selects both blocks. */
  lemma ExampleSelectAll()
    ensures Hit(AddBlock, RectEvent(90.0, 90.0, 220.0, 220.0, false, false))
    ensures Hit(SubtractBlock, RectEvent(90.0, 90.0, 220.0, 220.0, false, false))
  {
  }

  /** Dragging back from (210,210) to (90,90) keeps only `add`, even when `subtract` was selected. */
  lemma ExampleSelectOne()
    ensures RectSelection([AddBlock.(selected := true), SubtractBlock.(selected := true)],
                          RectEvent(210.0, 210.0, -120.0, -120.0, false, false))
            == [AddBlock.(selected := true), SubtractBlock]
  {
  }

  /** A rectangle from (90,90) to (91,89) covers no block and clears the selection. */
  lemma ExampleSelectNone()
    ensures RectSelection([AddBlock.(selected := true), SubtractBlock],
                          RectEvent(90.0, 90.0, 1.0, -1.0, false, false))
            == [AddBlock, SubtractBlock]
  {
  }

  /** A field view, by identity. */
  type FieldId = nat

  /** Source key to the field views whose wires come from it. */
  type Links = map<string, set<FieldId>>

  /** No source key is stored with an empty set. */
  predicate NoEmptyLinks(links: Links) {
    forall k :: k in links ==> links[k] != {}
  }

  /** `linkField`: the target joins the source key's set, which is created when missing. */
  function LinkField(links: Links, source: string, target: FieldId): (r: Links)
    ensures source in r && r[source] == (if source in links then links[source] else {}) + {target}
    ensures forall k :: k != source ==> (k in r <==> k in links) && (k in links ==> r[k] == links[k])
    ensures NoEmptyLinks(links) ==> NoEmptyLinks(r)
  {
    links[source := (if source in links then links[source] else {}) + {target}]
  }

  /** `unlinkField`: the target leaves the source key's set, and an emptied set is removed. */
  function UnlinkField(links: Links, source: string, target: FieldId): (r: Links)
    ensures source !in links ==> r == links
    ensures source in links && links[source] - {target} == {} ==> r == links - {source}
    ensures source in links && links[source] - {target} != {} ==> r == links[source := links[source] - {target}]
    ensures NoEmptyLinks(links) ==> NoEmptyLinks(r)
    ensures source in r ==> target !in r[source]
  {
    if source in links then
      var s := links[source] - {target};
      if s == {} then links - {source} else links[source := s]
    else links
  }

  /** Linking a target that was not linked and unlinking it again restores the registry. */
  lemma LinkThenUnlink(links: Links, source: string, target: FieldId)
    requires NoEmptyLinks(links)
    requires source in links ==> target !in links[source]
    ensures UnlinkField(LinkField(links, source, target), source, target) == links
  {
    var r := UnlinkField(LinkField(links, source, target), source, target);
    if source in links {
      assert links[source] + {target} - {target} == links[source];
    } else {
      assert ({} + {target}) - {target} == {};
    }
    assert forall k :: k in r <==> k in links;
  }

  /** A call of `sourceChanged` on a field view: its new source (`None` for null) and whether the wire is indirect. */
  datatype SourceChange = SourceChange(target: FieldId, source: Option<FieldId>, indirect: bool)

  /** Whether `path` lies strictly below `key`. */
  predicate Below(path: string, key: string) {
    Strings.StartsWith(path, key + ".")
  }

  /** Every target linked from a path strictly below `key`. */
  function ChildTargets(links: Links, key: string): (r: set<FieldId>)
    ensures forall t :: t in r <==> exists p :: p in links && Below(p, key) && t in links[p]
  {
    set p, t | p in links && t in links[p] && Below(p, key) :: t
  }

  /**
   * `registerField`: the view is stored under its key; the targets linked
   * to that exact key are told their source, or when there are none, the
   * targets linked below the key are told of an indirect source.
   */
  function RegisterField(fields: map<string, FieldId>, links: Links, key: string, item: FieldId): (r: (map<string, FieldId>, set<SourceChange>))
    ensures r.0 == fields[key := item]
    ensures key in links ==> forall c :: c in r.1 <==> c.target in links[key] && c == SourceChange(c.target, Some(item), false)
    ensures key !in links ==> forall c :: c in r.1 <==> c.target in ChildTargets(links, key) && c == SourceChange(c.target, Some(item), true)
  {
    var changes :=
      if key in links then set t | t in links[key] :: SourceChange(t, Some(item), false)
      else set t | t in ChildTargets(links, key) :: SourceChange(t, Some(item), true);
    (fields[key := item], changes)
  }

  /**
   * `unregisterField`: only the view stored under the key may remove
   * itself; then the exact targets lose their source, or when there are
   * none, the targets below the key whose wire came from this view do.
   * `wireSource` gives the view each target's wire currently comes from.
   */
  function UnregisterField(fields: map<string, FieldId>, links: Links, key: string, item: FieldId,
                           wireSource: FieldId -> Option<FieldId>): (r: (map<string, FieldId>, set<SourceChange>))
    ensures !(key in fields && fields[key] == item) ==> r == (fields, {})
    ensures key in fields && fields[key] == item ==> r.0 == fields - {key}
    ensures key in fields && fields[key] == item && key in links ==>
      forall c :: c in r.1 <==> c.target in links[key] && c == SourceChange(c.target, None, false)
    ensures key in fields && fields[key] == item && key !in links ==>
      forall c :: c in r.1 <==>
        c.target in ChildTargets(links, key) && wireSource(c.target) == Some(item) && c == SourceChange(c.target, None, false)
  {
    if key in fields && fields[key] == item then
      var changes :=
        if key in links then set t | t in links[key] :: SourceChange(t, None, false)
        else set t | t in ChildTargets(links, key) && wireSource(t) == Some(item) :: SourceChange(t, None, false);
      (fields - {key}, changes)
    else (fields, {})
  }

  /**
   * Registering a view under a free key and unregistering it again restores
   * the registry, and the views told of the new source are the ones told of
   * its loss when the key is linked directly.
   */
  lemma RegisterThenUnregister(fields: map<string, FieldId>, links: Links, key: string, item: FieldId,
                               wireSource: FieldId -> Option<FieldId>)
    requires key !in fields
    ensures UnregisterField(RegisterField(fields, links, key, item).0, links, key, item, wireSource).0 == fields
    ensures key in links ==>
      (set c | c in RegisterField(fields, links, key, item).1 :: c.target)
      == (set c | c in UnregisterField(RegisterField(fields, links, key, item).0, links, key, item, wireSource).1 :: c.target)
  {
    assert fields[key := item] - {key} == fields;
  }
}
