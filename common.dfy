/** Values and list idioms shared by the three editor pages. */
module Common {

  /** A value that may be absent (`undefined` or `null` in the stored document). */
  datatype Option<T> = None | Some(value: T) {
    /** `x || fallback` for a value whose present form is always truthy (an object or an array). */
    function GetOr(fallback: T): T {
      match this
      case Some(v) => v
      case None => fallback
    }
  }

  /** The two content languages of the dashboard. */
  datatype Lang = De | En

  /** A bilingual object `{ de, en }`. A stored object may lack a key, so it is a partial map. */
  type Text = map<Lang, string>

  /** `{ de: '', en: '' }`, the blank bilingual value every "add" action and every default uses. */
  const Blank: Text := map[De := "", En := ""]

  /** `items.filter((_, i) => i !== index)`: keeps every element whose position is not `index`. */
  function RemoveAt<T>(items: seq<T>, index: int): (r: seq<T>)
    ensures 0 <= index < |items| ==> r == items[..index] + items[index + 1..]
    ensures !(0 <= index < |items|) ==> r == items
    decreases |items|
  {
    if items == [] then []
    else (if index == 0 then [] else [items[0]]) + RemoveAt(items[1..], index - 1)
  }

  /** Removing the element just appended gives back the list it was appended to. */
  lemma RemoveAppended<T>(items: seq<T>, x: T)
    ensures RemoveAt(items + [x], |items|) == items
  {
    assert (items + [x])[..|items|] == items;
  }

  /** `const copy = [...items]; copy[index] = item;`: a fresh array holding the elements,
      one slot of which is then overwritten. */
  method AssignAt<T>(items: seq<T>, index: nat, item: T) returns (r: seq<T>)
    requires index < |items|
    ensures |r| == |items| && r[index] == item
    ensures forall k :: 0 <= k < |items| && k != index ==> r[k] == items[k]
  {
    var copy := new T[|items|](k requires 0 <= k < |items| => items[k]);
    copy[index] := item;
    r := copy[..];
  }
}
