/**
 * Dropping a dragged block template onto the stage: whether the drop is
 * accepted, the name the new block gets (asking the user when needed), and
 * the position and width written into its data. The drag store's entries
 * and the user's answer to the name prompt are parameters.
 */
module DragDropBlock {
  import opened Wrappers
  import opened Values

  /** A block's data: its property names and values. */
  type BlockData = map<string, Value>

  /** The key under which a block keeps its position and width. */
  const XywKey := "@b-xyw"
  const DefaultWidth: real := 150.0
  /** A block is drawn 12 pixels up and left of the drop point. */
  const DropOffset: real := 12.0

  /** The drag carries a block template: data that has its own `#is`. */
  predicate Accepts(drag: Option<BlockData>) {
    drag.Some? && "#is" in drag.value
  }

  datatype DropEffect = NoDrop | Link

  /** `onDragBlockOver`: link exactly when the drag carries a block template. */
  function OnDragBlockOver(drag: Option<BlockData>): (r: DropEffect)
    ensures r == Link <==> drag.Some? && "#is" in drag.value
  {
    if Accepts(drag) then Link else NoDrop
  }

  /** Whether a value is a width the source takes: a number strictly between 80 and 9999. */
  predicate UsableWidth(v: Value) {
    v.Num? && 80.0 < v.n < 9999.0
  }

  /** The width of the new block: the template's own width when usable, else 150. */
  function Width(data: BlockData): (r: real)
    ensures r == DefaultWidth || 80.0 < r < 9999.0
    ensures r != DefaultWidth ==>
      XywKey in data && data[XywKey].Arr? && |data[XywKey].items| > 2 && data[XywKey].items[2] == Num(r)
    ensures XywKey in data && data[XywKey].Arr? && |data[XywKey].items| > 2 && UsableWidth(data[XywKey].items[2]) ==>
      r == data[XywKey].items[2].n
  {
    if XywKey in data && data[XywKey].Arr? && |data[XywKey].items| > 2 && UsableWidth(data[XywKey].items[2])
    then data[XywKey].items[2].n
    else DefaultWidth
  }

  /** The placement `[offsetX - 12, offsetY - 12, width]` written over the template's own. */
  function Place(data: BlockData, offsetX: real, offsetY: real): (r: BlockData)
    ensures XywKey in r && r[XywKey] == Arr([Num(offsetX - DropOffset), Num(offsetY - DropOffset), Num(Width(data))])
    ensures forall k :: k != XywKey ==> (k in r <==> k in data) && (k in data ==> r[k] == data[k])
  {
    data[XywKey := Arr([Num(offsetX - DropOffset), Num(offsetY - DropOffset), Num(Width(data))])]
  }

  /** Placing the created data again keeps the width: what is written is read back the same. */
  lemma PlaceKeepsWidth(data: BlockData, x1: real, y1: real, x2: real, y2: real)
    ensures Width(Place(data, x1, y1)) == Width(data)
    ensures Place(Place(data, x1, y1), x2, y2) == Place(data, x2, y2)
  {
    var w := Width(data);
    var placed := Place(data, x1, y1);
    assert placed[XywKey].items[2] == Num(w);
    if w != DefaultWidth {
      assert UsableWidth(Num(w));
    }
    assert Width(placed) == w;
  }

  /** The user's answer to the name prompt: dismissed, or confirmed with the input edited or left as it was. */
  datatype Answer = Dismissed | Confirmed(edited: Option<string>)

  /** A `createBlock` call: the name and the data of the new block. */
  datatype Create = Create(name: Value, data: BlockData)

  /** What a drop does: the prompt shown (with its initial text), and the block created. */
  datatype DropResult = DropResult(prompt: Option<Value>, created: Option<Create>)

  /** The name a drop proposes: the dragged `name` when truthy, else the template's type. */
  function ProposedName(drag: BlockData, nameData: Value): (r: Value)
    requires "#is" in drag
    ensures Truthy(nameData) ==> r == nameData
    ensures !Truthy(nameData) ==> r == drag["#is"]
  {
    if Truthy(nameData) then nameData else drag["#is"]
  }

  /**
   * `onDropBlock`: a template is created under its proposed name, or, when
   * that name is empty or shift is held, only after the user confirms a
   * non-empty name in the prompt.
   */
  function OnDropBlock(drag: Option<BlockData>, nameData: Value, offsetX: real, offsetY: real, shift: bool, answer: Answer): (r: DropResult)
    ensures !Accepts(drag) ==> r == DropResult(None, None)
    ensures Accepts(drag) && ProposedName(drag.value, nameData) != Str("") && !shift ==>
      r == DropResult(None, Some(Create(ProposedName(drag.value, nameData), Place(drag.value, offsetX, offsetY))))
    ensures Accepts(drag) && (ProposedName(drag.value, nameData) == Str("") || shift) ==>
      r.prompt.Some?
      && (Truthy(ProposedName(drag.value, nameData)) ==> r.prompt.value == ProposedName(drag.value, nameData))
      && (!Truthy(ProposedName(drag.value, nameData)) ==> r.prompt.value == drag.value["#is"])
    ensures r.prompt.Some? && r.created.Some? ==> answer.Confirmed? && Truthy(r.created.value.name)
    ensures r.prompt.Some? && answer.Confirmed? && answer.edited.Some? ==>
      (r.created.Some? <==> answer.edited.value != "")
      && (r.created.Some? ==> r.created.value.name == Str(answer.edited.value))
    ensures r.prompt.Some? && answer.Confirmed? && answer.edited.None? ==>
      (r.created.Some? <==> Truthy(r.prompt.value))
      && (r.created.Some? ==> r.created.value.name == r.prompt.value)
    ensures r.created.Some? ==> Accepts(drag) && r.created.value.data == Place(drag.value, offsetX, offsetY)
  {
    if !Accepts(drag) then DropResult(None, None)
    else
      var data := drag.value;
      var name := ProposedName(data, nameData);
      var placed := Place(data, offsetX, offsetY);
      if name == Str("") || shift then
        var initial := if Truthy(name) then name else data["#is"];
        var chosen :=
          match answer
          case Dismissed => None
          case Confirmed(edited) => Some(if edited.Some? then Str(edited.value) else initial);
        DropResult(Some(initial), if chosen.Some? && Truthy(chosen.value) then Some(Create(chosen.value, placed)) else None)
      else DropResult(None, Some(Create(name, placed)))
  }

  /** A drop creates a block or prompts only when the drag-over before it offered to link. */
  lemma DropNeedsLink(drag: Option<BlockData>, nameData: Value, offsetX: real, offsetY: real, shift: bool, answer: Answer)
    ensures OnDragBlockOver(drag) == NoDrop ==> OnDropBlock(drag, nameData, offsetX, offsetY, shift, answer) == DropResult(None, None)
    ensures OnDropBlock(drag, nameData, offsetX, offsetY, shift, answer).created.Some? ==> OnDragBlockOver(drag) == Link
  {
  }

  /** The example drag of an `add` template with no name, dropped at (300, 200) with a 120-wide template. */
  lemma ExampleDrop()
    ensures OnDropBlock(Some(map["#is" := Str("add"), XywKey := Arr([Num(0.0), Num(0.0), Num(120.0)])]),
                        Undefined, 300.0, 200.0, false, Dismissed)
            == DropResult(None, Some(Create(Str("add"), map["#is" := Str("add"), XywKey := Arr([Num(288.0), Num(188.0), Num(120.0)])])))
  {
    var data := map["#is" := Str("add"), XywKey := Arr([Num(0.0), Num(0.0), Num(120.0)])];
    assert data[XywKey].items[2] == Num(120.0);
    assert Width(data) == 120.0;
    assert ProposedName(data, Undefined) == Str("add");
    assert Place(data, 300.0, 200.0) == map["#is" := Str("add"), XywKey := Arr([Num(288.0), Num(188.0), Num(120.0)])];
  }
}
