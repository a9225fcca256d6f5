/** The members of C++'s `std::string` that the documentation search calls, modelled on
    sequences of characters. `std::string::npos` ("no position") is `None`. */
module StdString {

  datatype Option<T> = None | Some(value: T)

  /** `needle` occurs in `hay` starting at position `i`. */
  predicate OccursAt(hay: string, needle: string, i: nat) {
    i + |needle| <= |hay| && hay[i..i + |needle|] == needle
  }

  /** `needle` is a substring of `hay`. */
  ghost predicate Contains(hay: string, needle: string) {
    exists i: nat :: OccursAt(hay, needle, i)
  }

  /** `hay.find(needle, from)`: the first position at or after `from` where `needle` occurs. */
  function FindFrom(hay: string, needle: string, from: nat): (r: Option<nat>)
    ensures r.Some? ==> from <= r.value && OccursAt(hay, needle, r.value)
    ensures r.Some? ==> forall i: nat :: from <= i < r.value ==> !OccursAt(hay, needle, i)
    ensures r.None? ==> forall i: nat :: from <= i ==> !OccursAt(hay, needle, i)
    decreases |hay| - from
  {
    if from + |needle| > |hay| then None
    else if hay[from..from + |needle|] == needle then Some(from)
    else FindFrom(hay, needle, from + 1)
  }

  /** `hay.find(needle)`: the first occurrence of `needle`, or npos when there is none. */
  function Find(hay: string, needle: string): (r: Option<nat>)
    ensures r.Some? <==> Contains(hay, needle)
    ensures r.Some? ==> OccursAt(hay, needle, r.value)
    ensures r.Some? ==> forall i: nat :: i < r.value ==> !OccursAt(hay, needle, i)
  {
    FindFrom(hay, needle, 0)
  }

  /** The empty string is found at position 0 of every string. */
  lemma FindEmpty(hay: string)
    ensures Find(hay, "") == Some(0)
  {
    assert OccursAt(hay, "", 0);
  }

  /** `s.find_first_not_of(chars)`: the first position whose character is not in `chars`. */
  function FindFirstNotOf(s: string, chars: string): (r: Option<nat>)
    ensures r.Some? ==> r.value < |s| && s[r.value] !in chars
    ensures r.Some? ==> forall k :: 0 <= k < r.value ==> s[k] in chars
    ensures r.None? ==> forall k :: 0 <= k < |s| ==> s[k] in chars
  {
    if s == [] then None
    else if s[0] !in chars then Some(0)
    else match FindFirstNotOf(s[1..], chars)
      case None => None
      case Some(k) => Some(k + 1)
  }

  /** `s.find_last_not_of(chars)`: the last position whose character is not in `chars`. */
  function FindLastNotOf(s: string, chars: string): (r: Option<nat>)
    ensures r.Some? ==> r.value < |s| && s[r.value] !in chars
    ensures r.Some? ==> forall k :: r.value < k < |s| ==> s[k] in chars
    ensures r.None? ==> forall k :: 0 <= k < |s| ==> s[k] in chars
  {
    if s == [] then None
    else if s[|s| - 1] !in chars then Some(|s| - 1)
    else FindLastNotOf(s[..|s| - 1], chars)
  }
}
