/**
 * The engine-reserved configuration properties of a block: the table that
 * maps each `#`-name to its property kind, the hook each kind runs when its
 * value changes, and the read-only property that refuses every write.
 */
module BlockConfigs {
  import opened Wrappers
  import opened Values

  /** One constructor per property class of the configuration table. */
  datatype ConfigKind =
    | TypeConfig
    | ModeConfig
    | CallConfig
    | SyncConfig
    | LengthConfig
    | InputConfig
    | OutputConfig
    | WaitingConfig
    | CancelConfig
    | PriorityConfig

  const ConfigNames: set<string> :=
    {"#is", "#mode", "#call", "#sync", "#len", "#input", "#output", "#wait", "#cancel", "#priority"}

  /** The property-name lookup of the configuration table. */
  function ConfigGenerator(name: string): (r: Option<ConfigKind>)
    ensures r.Some? <==> name in ConfigNames
  {
    match name
    case "#is" => Some(TypeConfig)
    case "#mode" => Some(ModeConfig)
    case "#call" => Some(CallConfig)
    case "#sync" => Some(SyncConfig)
    case "#len" => Some(LengthConfig)
    case "#input" => Some(InputConfig)
    case "#output" => Some(OutputConfig)
    case "#wait" => Some(WaitingConfig)
    case "#cancel" => Some(CancelConfig)
    case "#priority" => Some(PriorityConfig)
    case _ => None
  }

  /** The reserved name each kind is registered under. */
  function ConfigName(k: ConfigKind): string {
    match k
    case TypeConfig => "#is"
    case ModeConfig => "#mode"
    case CallConfig => "#call"
    case SyncConfig => "#sync"
    case LengthConfig => "#len"
    case InputConfig => "#input"
    case OutputConfig => "#output"
    case WaitingConfig => "#wait"
    case CancelConfig => "#cancel"
    case PriorityConfig => "#priority"
  }

  /** The table is a bijection between the ten reserved names and the ten kinds. */
  lemma ConfigTableBijective(name: string, k: ConfigKind)
    ensures ConfigGenerator(ConfigName(k)) == Some(k)
    ensures ConfigName(k) in ConfigNames
    ensures ConfigGenerator(name) == Some(k) <==> name == ConfigName(k)
  {
  }

  /** The block callbacks a configuration property can forward its value to. */
  datatype Callback =
    | TypeChanged
    | OnCall
    | SyncChanged
    | ModeChanged
    | LengthChanged
    | PriorityChanged
    | OnWait
    | OnCancel

  /** A call of a block callback with an argument. */
  datatype Notice = Notice(callback: Callback, arg: Value)

  /** The callback a kind's `_valueChanged` override calls, if it overrides it. */
  function Hook(k: ConfigKind): Option<Callback> {
    match k
    case TypeConfig => Some(TypeChanged)
    case CallConfig => Some(OnCall)
    case SyncConfig => Some(SyncChanged)
    case ModeConfig => Some(ModeChanged)
    case LengthConfig => Some(LengthChanged)
    case PriorityConfig => Some(PriorityChanged)
    case WaitingConfig => Some(OnWait)
    case CancelConfig => Some(OnCancel)
    case InputConfig => None
    case OutputConfig => None
  }

  /** The kind whose hook is `cb`: the inverse of `Hook`. */
  function HookedKind(cb: Callback): ConfigKind {
    match cb
    case TypeChanged => TypeConfig
    case OnCall => CallConfig
    case SyncChanged => SyncConfig
    case ModeChanged => ModeConfig
    case LengthChanged => LengthConfig
    case PriorityChanged => PriorityConfig
    case OnWait => WaitingConfig
    case OnCancel => CancelConfig
  }

  /** Every callback belongs to exactly one kind; `#input` and `#output` have none. */
  lemma HookInjective(k: ConfigKind, cb: Callback)
    ensures Hook(HookedKind(cb)) == Some(cb)
    ensures Hook(k) == Some(cb) <==> k == HookedKind(cb)
    ensures Hook(k).None? <==> k == InputConfig || k == OutputConfig
  {
  }

  /** How a property of the block behaves, chosen from its name. */
  datatype PropertyKind = Plain | Config(kind: ConfigKind) | ReadOnly

  /**
   * A property cell: its current value, its saved raw form and its binding
   * path. Listeners and the owning block are not part of the model.
   */
  datatype Property = Property(name: string, kind: PropertyKind, value: Value, saved: Value, binding: Option<string>)

  /** The property a block creates for `name`: a configuration class when the table has one. */
  function NewProperty(name: string): (p: Property)
    ensures p.name == name && p.binding.None?
    ensures p.kind.Config? <==> name in ConfigNames
    ensures p.kind.Config? ==> ConfigName(p.kind.kind) == name
    ensures p.kind == Config(TypeConfig) ==> p.value == Str("") && p.saved == Str("")
    ensures p.kind != Config(TypeConfig) ==> p.value == Undefined && p.saved == Undefined
  {
    match ConfigGenerator(name)
    case Some(TypeConfig) => Property(name, Config(TypeConfig), Str(""), Str(""), None)
    case Some(k) => Property(name, Config(k), Undefined, Undefined, None)
    case None => Property(name, Plain, Undefined, Undefined, None)
  }

  /** The read-only property (such as `#impl`), holding the value given at construction. */
  function NewReadOnly(name: string, value: Value): (p: Property)
    ensures p.kind.ReadOnly? && p.value == value && p.name == name
  {
    Property(name, ReadOnly, value, Undefined, None)
  }

  /** The value `onChange` hands on to the base class: `#is` turns null and undefined into ''. */
  function ForwardedValue(kind: PropertyKind, v: Value): (r: Value)
    ensures kind == Config(TypeConfig) && IsNullish(v) ==> r == Str("")
    ensures !(kind == Config(TypeConfig) && IsNullish(v)) ==> r == v
    ensures kind == Config(TypeConfig) ==> !IsNullish(r)
  {
    if kind == Config(TypeConfig) && IsNullish(v) then Str("") else v
  }

  /** The callbacks `_valueChanged` runs: at most one, carrying the current value. */
  function ValueChanged(p: Property): (r: seq<Notice>)
    ensures |r| <= 1
    ensures |r| == 1 <==> p.kind.Config? && Hook(p.kind.kind).Some?
    ensures |r| == 1 ==> r[0].arg == p.value && HookedKind(r[0].callback) == p.kind.kind
  {
    if p.kind.Config? then
      match Hook(p.kind.kind)
      case Some(cb) => [Notice(cb, p.value)]
      case None => []
    else []
  }

  /** The writes a property accepts from outside. */
  datatype Write = UpdateValue(v: Value) | SetValue(v: Value) | SetBinding(path: string)

  /**
   * The result of `updateValue`: whether the value changed, and the property
   * after the write. A read-only property refuses; any other property stores
   * the value its `onChange` forwards.
   */
  function Update(p: Property, v: Value): (r: (bool, Property))
    ensures p.kind.ReadOnly? ==> r == (false, p)
    ensures !p.kind.ReadOnly? ==> r.1.value == ForwardedValue(p.kind, v) && r.0 == (p.value != r.1.value)
    ensures r.1.name == p.name && r.1.kind == p.kind
  {
    if p.kind.ReadOnly? then (false, p)
    else
      var stored := ForwardedValue(p.kind, v);
      (p.value != stored, p.(value := stored))
  }

  /** One write applied to a property. */
  function Apply(p: Property, w: Write): (r: Property)
    ensures p.kind.ReadOnly? ==> r == p
    ensures r.name == p.name && r.kind == p.kind
    ensures w.UpdateValue? && !p.kind.ReadOnly? ==> r.value == ForwardedValue(p.kind, w.v)
    ensures w.SetValue? && !p.kind.ReadOnly? ==> r.value == ForwardedValue(p.kind, w.v) && r.binding.None?
    ensures w.SetBinding? && !p.kind.ReadOnly? ==> r.binding == Some(w.path)
  {
    if p.kind.ReadOnly? then p
    else
      match w
      case UpdateValue(v) => Update(p, v).1
      case SetValue(v) =>
        var stored := ForwardedValue(p.kind, v);
        p.(value := stored, saved := stored, binding := None)
      case SetBinding(path) => p.(binding := Some(path))
  }

  /** A sequence of writes applied in order. */
  function ApplyAll(p: Property, ws: seq<Write>): Property
    decreases |ws|
  {
    if |ws| == 0 then p else ApplyAll(Apply(p, ws[0]), ws[1..])
  }

  /** A read-only property keeps the value it was constructed with whatever is written to it. */
  lemma {:induction false} ReadOnlyNeverChanges(p: Property, ws: seq<Write>)
    requires p.kind.ReadOnly?
    ensures ApplyAll(p, ws) == p
    decreases |ws|
  {
    if |ws| > 0 {
      ReadOnlyNeverChanges(Apply(p, ws[0]), ws[1..]);
    }
  }

  /** A freshly created `#is` property never holds null or undefined, whatever is written to it. */
  lemma TypeConfigNeverNullish(ws: seq<Write>)
    ensures !IsNullish(ApplyAll(NewProperty("#is"), ws).value)
  {
    TypeConfigStaysNonNullish(NewProperty("#is"), ws);
  }

  lemma {:induction false} TypeConfigStaysNonNullish(p: Property, ws: seq<Write>)
    requires p.kind == Config(TypeConfig) && !IsNullish(p.value)
    ensures !IsNullish(ApplyAll(p, ws).value)
    decreases |ws|
  {
    if |ws| > 0 {
      TypeConfigStaysNonNullish(Apply(p, ws[0]), ws[1..]);
    }
  }
}
