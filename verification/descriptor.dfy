/**
 * Function and property descriptors: what a function type declares about
 * its ports, used both when types are registered and by the property panel.
 * A field the source may leave undefined is an `Option`; a group whose
 * `properties` array is undefined has `hasProperties` false (and no elements).
 */
module Descriptor {
  import opened Wrappers

  datatype PropDesc =
    | Prop(name: Option<string>, typ: Option<string>, editor: Option<string>, visible: Option<string>, readonly: bool)
    | Group(group: string, hasProperties: bool, properties: seq<PropDesc>)

  datatype FunctionDesc = FunctionDesc(name: string, icon: string, useLength: bool, properties: seq<PropDesc>)

  /** The names of the plain (non-group) ports, in declaration order; an unnamed one reads as ''. */
  function PortNames(props: seq<PropDesc>): (r: seq<string>)
    ensures |r| <= |props|
  {
    if |props| == 0 then []
    else if props[0].Prop? then [props[0].name.GetOr("")] + PortNames(props[1..])
    else PortNames(props[1..])
  }

  /** Whether some port is an indexed group. */
  predicate HasGroup(props: seq<PropDesc>) {
    exists i :: 0 <= i < |props| && props[i].Group?
  }
}
