/** The two string operations the search box uses: `toLowerCase`
    (restricted here to ASCII letters) and `includes`. */
module Text {

  function LowerChar(c: char): char {
    if 'A' <= c <= 'Z' then (c as int + 32) as char else c
  }

  /** `toLowerCase` on ASCII letters; every other character is kept. */
  function Lower(s: string): (r: string)
    ensures |r| == |s|
    ensures forall i :: 0 <= i < |s| ==> r[i] == LowerChar(s[i])
    ensures forall i :: 0 <= i < |s| ==> !('A' <= r[i] <= 'Z')
  {
    seq(|s|, i requires 0 <= i < |s| => LowerChar(s[i]))
  }

  /** `needle` occurs in `hay` starting at offset `i`. */
  ghost predicate OccursAt(needle: string, hay: string, i: int) {
    0 <= i <= |hay| - |needle| && hay[i..i + |needle|] == needle
  }

  /** `needle` occurs in `hay` at some offset. */
  ghost predicate Occurs(needle: string, hay: string) {
    exists i :: OccursAt(needle, hay, i)
  }

  /** `hay.includes(needle)`: compare at offset 0, then search the rest. */
  function Includes(hay: string, needle: string): bool
    decreases |hay|
  {
    if |needle| > |hay| then false
    else if hay[..|needle|] == needle then true
    else Includes(hay[1..], needle)
  }

  /** An occurrence in the tail is an occurrence one further on, and back. */
  lemma OccursInTail(needle: string, hay: string, i: int)
    requires |hay| > 0 && i >= 0
    ensures OccursAt(needle, hay[1..], i) <==> OccursAt(needle, hay, i + 1)
  {
    if 0 <= i <= |hay| - 1 - |needle| {
      var inTail, inHay := hay[1..][i..i + |needle|], hay[i + 1..i + 1 + |needle|];
      assert inTail == inHay by {
        forall k | 0 <= k < |inTail| ensures inTail[k] == inHay[k] {
        }
      }
    }
  }

  /** The search finds `needle` exactly when it occurs in `hay`. */
  lemma {:induction false} IncludesIff(hay: string, needle: string)
    ensures Includes(hay, needle) <==> Occurs(needle, hay)
    decreases |hay|
  {
    if |needle| > |hay| {
    } else if hay[..|needle|] == needle {
      assert OccursAt(needle, hay, 0);
    } else {
      IncludesIff(hay[1..], needle);
      if Includes(hay[1..], needle) {
        var i :| OccursAt(needle, hay[1..], i);
        OccursInTail(needle, hay, i);
      }
      if Occurs(needle, hay) {
        var i :| OccursAt(needle, hay, i);
        assert i != 0;
        OccursInTail(needle, hay, i - 1);
      }
    }
  }

  /** The empty string occurs in every string. */
  lemma IncludesEmpty(hay: string)
    ensures Includes(hay, "")
  {
    assert hay[..0] == "";
  }
}
