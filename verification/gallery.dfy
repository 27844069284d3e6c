/** The vocabulary shared by the rest of the model: the art items a Frame TV
    reports, their identifiers, and an optional value for unset options. */
module Gallery {

  /** Device-assigned identifier of a stored art item; opaque to this program. */
  type Id = string

  /** One entry of the list `getAvailableArt` returns. The device's date is
      modelled as an integer timestamp; larger means newer. */
  datatype ArtItem = ArtItem(id: Id, date: int)

  /** An option that may be absent, such as `--max-items-on-device`. */
  datatype Option<+T> = None | Some(value: T)

  /** The ids of `s`, in order: `items.map(item => item.id)`. */
  function Ids(s: seq<ArtItem>): (r: seq<Id>)
    ensures |r| == |s|
    ensures forall k | 0 <= k < |s| :: r[k] == s[k].id
  {
    if s == [] then [] else [s[0].id] + Ids(s[1..])
  }
}
