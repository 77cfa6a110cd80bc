/** Removing one position of a list: `list.filter((_, i) => i !== index)` and
    `list.splice(index, 1)` on a copy. */
module Lists {

  /** `s` without position `i`; an index outside `s` removes nothing. */
  function DropIndex<T>(s: seq<T>, i: int): (r: seq<T>)
    ensures 0 <= i < |s| ==> |r| == |s| - 1 && multiset(r) + multiset{s[i]} == multiset(s)
    ensures 0 <= i < |s| ==> forall j | 0 <= j < |r| :: r[j] == if j < i then s[j] else s[j + 1]
    ensures !(0 <= i < |s|) ==> r == s
  {
    if 0 <= i < |s| then
      assert s == s[..i] + [s[i]] + s[i + 1..];
      s[..i] + s[i + 1..]
    else s
  }
}
