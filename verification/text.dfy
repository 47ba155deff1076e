/**
 String facts the keyword buffer relies on: a declarative notion of
 "`w` occurs in `s`", the left-to-right scan that JavaScript's
 `String.prototype.includes` performs, and "the last `n` characters".
 */
module Text {

  /** `w` occurs in `s` starting at index `i`. */
  ghost predicate OccursAt(s: string, w: string, i: int)
  {
    0 <= i && i + |w| <= |s| && s[i..i + |w|] == w
  }

  /** `w` is a contiguous substring of `s`. */
  ghost predicate Occurs(s: string, w: string)
  {
    exists i :: OccursAt(s, w, i)
  }

  predicate StartsWith(s: string, w: string)
  {
    |w| <= |s| && s[..|w|] == w
  }

  predicate EndsWith(s: string, w: string)
  {
    |w| <= |s| && s[|s| - |w|..] == w
  }

  /** `s.includes(w)`: try each start position of `s`, left to right. */
  function Includes(s: string, w: string): bool
    decreases |s|
  {
    if StartsWith(s, w) then true
    else if |s| == 0 then false
    else Includes(s[1..], w)
  }

  /** The scan finds `w` exactly when `w` occurs somewhere in `s`. */
  lemma {:induction false} IncludesIffOccurs(s: string, w: string)
    ensures Includes(s, w) <==> Occurs(s, w)
    decreases |s|
  {
    if StartsWith(s, w) {
      assert OccursAt(s, w, 0);
    } else if |s| == 0 {
    } else {
      IncludesIffOccurs(s[1..], w);
      if Includes(s[1..], w) {
        OccursInSuffix(s, 1, w);
      }
      if Occurs(s, w) {
        var i :| OccursAt(s, w, i);
        if i > 0 {
          assert s[1..][i - 1..i - 1 + |w|] == s[i..i + |w|];
          assert OccursAt(s[1..], w, i - 1);
        }
      }
    }
  }

  /** A suffix is in particular an occurrence. */
  lemma EndsWithOccurs(s: string, w: string)
    requires EndsWith(s, w)
    ensures Occurs(s, w)
  {
    assert OccursAt(s, w, |s| - |w|);
  }

  /** An occurrence in a suffix of `s` is an occurrence in `s`. */
  lemma OccursInSuffix(s: string, k: nat, w: string)
    requires k <= |s|
    requires Occurs(s[k..], w)
    ensures Occurs(s, w)
  {
    var i :| OccursAt(s[k..], w, i);
    assert s[k..][i..i + |w|] == s[k + i..k + i + |w|];
    assert OccursAt(s, w, k + i);
  }

  /**
   Appending one character to `s` creates no occurrence of `w` except one
   that ends at the new character.
   */
  lemma OccursAfterAppend(s: string, c: char, w: string)
    requires Occurs(s + [c], w)
    ensures Occurs(s, w) || EndsWith(s + [c], w)
  {
    var i :| OccursAt(s + [c], w, i);
    if i + |w| <= |s| {
      assert (s + [c])[i..i + |w|] == s[i..i + |w|];
      assert OccursAt(s, w, i);
    }
  }

  /** The last `n` characters of `s` (all of `s` when it is shorter), in order. */
  function Last(s: string, n: nat): (r: string)
    ensures |r| == if |s| <= n then |s| else n
    ensures EndsWith(s, r)
  {
    if |s| <= n then s else s[|s| - n..]
  }

  /**
   Keeping the last `n` characters before appending one more does not
   change which `n` characters are kept afterwards.
   */
  lemma LastOfAppend(s: string, c: char, n: nat)
    requires n >= 1
    ensures Last(Last(s, n) + [c], n) == Last(s + [c], n)
  {
  }
}
