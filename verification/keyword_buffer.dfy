/**
 The keyword-typing Easter egg: a keydown handler keeps the most recent
 letters typed in a short buffer and fires a blue flash, then empties the
 buffer, as soon as the buffer contains "BLUE" or "SKY". The flash itself
 (a CSS class added and removed 100 ms later) is modelled as the boolean
 `flashed` of each step.
 */
module KeywordBuffer {
  import opened Text

  /** The buffer is trimmed once it holds more than this many letters. */
  const Capacity: nat := 10

  const Blue: string := "BLUE"
  const Sky: string := "SKY"

  /** State after one keydown: the new buffer, and whether the flash fired. */
  datatype Outcome = Outcome(buffer: string, flashed: bool)

  predicate IsAsciiLetter(c: char)
  {
    'a' <= c <= 'z' || 'A' <= c <= 'Z'
  }

  predicate IsUpperLetter(c: char)
  {
    'A' <= c <= 'Z'
  }

  predicate AllUpper(s: string)
  {
    forall i :: 0 <= i < |s| ==> IsUpperLetter(s[i])
  }

  /** The handler's guard: the key name is one character and that character is a letter. */
  predicate Accepts(key: string)
  {
    |key| == 1 && IsAsciiLetter(key[0])
  }

  /** `toUpperCase` on the characters the guard lets through. */
  function ToUpper(c: char): (u: char)
    ensures IsAsciiLetter(c) ==> IsUpperLetter(u)
    ensures IsUpperLetter(c) ==> u == c
  {
    if 'a' <= c <= 'z' then (c as int - 'a' as int + 'A' as int) as char else c
  }

  /**
   A character upper-cases to the capital `L` exactly when it is `L` itself
   or the matching lower-case letter, 32 code points above it in ASCII.
   */
  lemma UpperIffSameLetter(c: char, L: char)
    requires IsUpperLetter(L)
    ensures ToUpper(c) == L <==> c == L || c as int == L as int + 32
  {
  }

  /** The buffer contains one of the two keywords. */
  ghost predicate KeywordIn(s: string)
  {
    Occurs(s, Blue) || Occurs(s, Sky)
  }

  lemma EmptyHasNoKeyword()
    ensures !KeywordIn("")
  {
  }

  /** The handler's test `includes("BLUE") || includes("SKY")`. */
  function HasKeyword(s: string): (r: bool)
    ensures r <==> KeywordIn(s)
  {
    IncludesIffOccurs(s, Blue);
    IncludesIffOccurs(s, Sky);
    Includes(s, Blue) || Includes(s, Sky)
  }

  /** Append one letter, then drop the oldest character when the buffer is too long. */
  function Append(buf: string, c: char): (t: string)
    ensures |buf| <= Capacity ==> t == Last(buf + [c], Capacity)
    ensures |buf| <= Capacity ==> |t| <= Capacity
    ensures AllUpper(buf) && IsUpperLetter(c) ==> AllUpper(t)
  {
    var b := buf + [c];
    if |b| > Capacity then b[1..] else b
  }

  /** One keydown event with key name `key`. */
  function Step(buf: string, key: string): (o: Outcome)
    ensures !Accepts(key) ==> o == Outcome(buf, false)
    ensures Accepts(key) ==> (o.flashed <==> KeywordIn(Append(buf, ToUpper(key[0]))))
    ensures o.flashed ==> o.buffer == ""
    ensures Accepts(key) && !o.flashed ==> o.buffer == Append(buf, ToUpper(key[0]))
    ensures Accepts(key) ==> !KeywordIn(o.buffer)
    ensures |buf| <= Capacity ==> |o.buffer| <= Capacity
    ensures AllUpper(buf) ==> AllUpper(o.buffer)
  {
    if !Accepts(key) then
      Outcome(buf, false)
    else
      var t := Append(buf, ToUpper(key[0]));
      if HasKeyword(t) then
        EmptyHasNoKeyword();
        Outcome("", true)
      else
        Outcome(t, false)
  }

  /**
   Whatever the buffer held, the characters typed last are still there after
   an append, as long as they fit the capacity: trimming only removes the
   oldest character.
   */
  lemma AppendKeepsRecent(buf: string, c: char, u: string)
    requires |u| <= Capacity
    requires EndsWith(buf + [c], u)
    ensures EndsWith(Append(buf, c), u)
  {
  }

  /**
   When the buffer held no keyword, a keyword after the append can only end
   at the letter just typed.
   */
  lemma {:induction false} MatchEndsAtNewKey(buf: string, c: char)
    requires !KeywordIn(buf)
    ensures KeywordIn(Append(buf, c)) <==> EndsWith(Append(buf, c), Blue) || EndsWith(Append(buf, c), Sky)
  {
    var t := Append(buf, c);
    var kept := if |buf + [c]| > Capacity then buf[1..] else buf;
    assert t == kept + [c];
    forall w | w == Blue || w == Sky
      ensures Occurs(t, w) <==> EndsWith(t, w)
    {
      if Occurs(t, w) {
        OccursAfterAppend(kept, c, w);
        if Occurs(kept, w) {
          assert buf[|buf| - |kept|..] == kept;
          OccursInSuffix(buf, |buf| - |kept|, w);
        }
      }
      if EndsWith(t, w) {
        EndsWithOccurs(t, w);
      }
    }
  }

  /** A valid step flashes exactly when the appended buffer ends with a keyword. */
  lemma FlashIffKeywordTyped(buf: string, key: string)
    requires !KeywordIn(buf)
    requires Accepts(key)
    ensures var t := Append(buf, ToUpper(key[0]));
            Step(buf, key).flashed <==> EndsWith(t, Blue) || EndsWith(t, Sky)
  {
    MatchEndsAtNewKey(buf, ToUpper(key[0]));
  }

  /** The state of the handler after the keydown events `keys`, in order, starting from `buf`. */
  function Run(buf: string, keys: seq<string>): (o: Outcome)
    decreases |keys|
  {
    if |keys| == 0 then Outcome(buf, false)
    else Step(Run(buf, keys[..|keys| - 1]).buffer, keys[|keys| - 1])
  }

  /** What every buffer the handler can reach satisfies. */
  ghost predicate Invariant(buf: string)
  {
    |buf| <= Capacity && AllUpper(buf) && !KeywordIn(buf)
  }

  lemma {:induction false} RunPreservesInvariant(buf: string, keys: seq<string>)
    requires Invariant(buf)
    ensures Invariant(Run(buf, keys).buffer)
    decreases |keys|
  {
    if |keys| > 0 {
      RunPreservesInvariant(buf, keys[..|keys| - 1]);
    }
  }

  /** From the initial empty buffer, every sequence of keydown events keeps the invariant. */
  lemma RunFromEmpty(keys: seq<string>)
    ensures |Run("", keys).buffer| <= Capacity
    ensures AllUpper(Run("", keys).buffer)
    ensures !KeywordIn(Run("", keys).buffer)
  {
    RunPreservesInvariant("", keys);
  }

  /** `keys` are valid key names spelling `w`, in either case. */
  predicate Spells(keys: seq<string>, w: string)
  {
    |keys| == |w| && forall i :: 0 <= i < |keys| ==> Accepts(keys[i]) && ToUpper(keys[i][0]) == w[i]
  }

  lemma RunPrefix(buf: string, keys: seq<string>, j: nat)
    requires j < |keys|
    ensures Run(buf, keys[..j + 1]) == Step(Run(buf, keys[..j]).buffer, keys[j])
  {
    assert keys[..j + 1][..j] == keys[..j];
  }

  /**
   One valid key `c` after a buffer ending with `u` of at most nine
   letters: the appended-and-trimmed buffer ends with `u + [c]`, and from a
   keyword-free buffer, when `c` is neither keyword's last letter, nothing
   fires and the step keeps that buffer.
   */
  lemma TypeLetter(prev: string, key: string, u: string)
    requires !KeywordIn(prev)
    requires Accepts(key)
    requires EndsWith(prev, u)
    requires |u| < Capacity
    ensures EndsWith(Append(prev, ToUpper(key[0])), u + [ToUpper(key[0])])
    ensures ToUpper(key[0]) != Blue[|Blue| - 1] && ToUpper(key[0]) != Sky[|Sky| - 1] ==>
              Step(prev, key) == Outcome(Append(prev, ToUpper(key[0])), false)
  {
    var c := ToUpper(key[0]);
    assert (prev + [c])[|prev| + 1 - (|u| + 1)..] == prev[|prev| - |u|..] + [c];
    AppendKeepsRecent(prev, c, u + [c]);
    FlashIffKeywordTyped(prev, key);
    var t := Append(prev, c);
    assert t[|t| - 1] == c;
    if EndsWith(t, Blue) {
      assert t[|t| - 1] == Blue[|Blue| - 1];
    }
    if EndsWith(t, Sky) {
      assert t[|t| - 1] == Sky[|Sky| - 1];
    }
  }

  /** No letter of a keyword but its last is that keyword's or the other keyword's last letter. */
  lemma KeywordInnerLetters(w: string, i: nat)
    requires w == Blue || w == Sky
    requires i < |w| - 1
    ensures w[i] != Blue[|Blue| - 1] && w[i] != Sky[|Sky| - 1]
  {
  }

  /**
   A valid key continuing, but not completing, a keyword that the buffer
   ends with the first letters of fires nothing and extends that ending.
   */
  lemma ContinueKeyword(prev: string, key: string, w: string, i: nat)
    requires w == Blue || w == Sky
    requires i < |w| - 1
    requires !KeywordIn(prev)
    requires Accepts(key)
    requires EndsWith(prev, w[..i])
    requires ToUpper(key[0]) == w[i]
    ensures !Step(prev, key).flashed
    ensures EndsWith(Step(prev, key).buffer, w[..i + 1])
  {
    assert w[..i] + [w[i]] == w[..i + 1];
    KeywordInnerLetters(w, i);
    TypeLetter(prev, key, w[..i]);
  }

  /**
   While a keyword is being typed, the buffer ends with the part typed so
   far, holds no keyword, and the flash has not fired.
   */
  lemma {:induction false} TypingPrefix(buf: string, keys: seq<string>, w: string, j: nat)
    requires w == Blue || w == Sky
    requires !KeywordIn(buf)
    requires Spells(keys, w)
    requires j < |w|
    ensures EndsWith(Run(buf, keys[..j]).buffer, w[..j])
    ensures !KeywordIn(Run(buf, keys[..j]).buffer)
    ensures !Run(buf, keys[..j]).flashed
  {
    if j == 0 {
      assert keys[..0] == [];
    } else {
      TypingPrefix(buf, keys, w, j - 1);
      var prev := Run(buf, keys[..j - 1]).buffer;
      var key := keys[j - 1];
      assert Accepts(key) && ToUpper(key[0]) == w[j - 1];
      RunPrefix(buf, keys, j - 1);
      assert Run(buf, keys[..j]) == Step(prev, key);
      ContinueKeyword(prev, key, w, j - 1);
    }
  }

  /** A valid key completing a keyword that the buffer already ends with all but the last letter of fires the flash. */
  lemma CompleteKeyword(prev: string, key: string, w: string)
    requires w == Blue || w == Sky
    requires !KeywordIn(prev)
    requires Accepts(key)
    requires EndsWith(prev, w[..|w| - 1])
    requires ToUpper(key[0]) == w[|w| - 1]
    ensures Step(prev, key).flashed
  {
    var n := |w| - 1;
    assert w[..n] + [w[n]] == w;
    TypeLetter(prev, key, w[..n]);
    EndsWithOccurs(Append(prev, ToUpper(key[0])), w);
  }

  /** The last letter of a keyword completes it and fires the flash. */
  lemma {:induction false} TypingLastLetter(buf: string, keys: seq<string>, w: string)
    requires w == Blue || w == Sky
    requires !KeywordIn(buf)
    requires Spells(keys, w)
    ensures Run(buf, keys).flashed
  {
    var n := |w| - 1;
    assert keys[..n + 1] == keys;
    TypingPrefix(buf, keys, w, n);
    var prev := Run(buf, keys[..n]).buffer;
    assert Accepts(keys[n]) && ToUpper(keys[n][0]) == w[n];
    CompleteKeyword(prev, keys[n], w);
    RunPrefix(buf, keys, n);
    assert Run(buf, keys) == Step(prev, keys[n]);
  }

  /**
   Typing the letters of "BLUE" (or "SKY"), in any case, as consecutive
   valid keys fires the flash on the last of them and not before, whatever
   the buffer held, as long as it held no keyword already, which every
   reachable buffer satisfies.
   */
  lemma TypingKeywordFlashes(buf: string, keys: seq<string>, w: string)
    requires w == Blue || w == Sky
    requires !KeywordIn(buf)
    requires Spells(keys, w)
    ensures forall j :: 0 <= j < |keys| ==> !Run(buf, keys[..j]).flashed
    ensures Run(buf, keys).flashed
    ensures Run(buf, keys).buffer == ""
  {
    forall j | 0 <= j < |keys|
      ensures !Run(buf, keys[..j]).flashed
    {
      TypingPrefix(buf, keys, w, j);
    }
    TypingLastLetter(buf, keys, w);
  }

  /** The upper-cased letters among the keys, in order. */
  function Letters(keys: seq<string>): (s: string)
    ensures AllUpper(s)
    decreases |keys|
  {
    if |keys| == 0 then []
    else
      var k := keys[|keys| - 1];
      Letters(keys[..|keys| - 1]) + (if Accepts(k) then [ToUpper(k[0])] else [])
  }

  /** One quiet step keeps the buffer equal to the last ten letters typed. */
  lemma QuietStep(typed: string, key: string)
    requires !Step(Last(typed, Capacity), key).flashed
    ensures Step(Last(typed, Capacity), key).buffer ==
              Last(typed + (if Accepts(key) then [ToUpper(key[0])] else []), Capacity)
  {
    if Accepts(key) {
      LastOfAppend(typed, ToUpper(key[0]), Capacity);
    }
  }

  /** No keydown event of the run fired the flash. */
  predicate Quiet(buf: string, keys: seq<string>)
    decreases |keys|
  {
    |keys| == 0 || (Quiet(buf, keys[..|keys| - 1]) && !Run(buf, keys).flashed)
  }

  lemma LettersLast(keys: seq<string>)
    requires |keys| > 0
    ensures var k := keys[|keys| - 1];
            Letters(keys) == Letters(keys[..|keys| - 1]) + (if Accepts(k) then [ToUpper(k[0])] else [])
  {
  }

  /**
   As long as no step of a run fires the flash, the buffer is exactly the
   last ten letters of everything typed after the starting buffer.
   */
  lemma {:induction false} QuietRunKeepsLastLetters(buf: string, keys: seq<string>)
    requires |buf| <= Capacity
    requires Quiet(buf, keys)
    ensures Run(buf, keys).buffer == Last(buf + Letters(keys), Capacity)
    decreases |keys|
  {
    if |keys| == 0 {
      assert buf + Letters(keys) == buf;
    } else {
      var n := |keys| - 1;
      var ks := keys[..n];
      var k := keys[n];
      QuietRunKeepsLastLetters(buf, ks);
      var typed := buf + Letters(ks);
      assert Run(buf, keys) == Step(Last(typed, Capacity), k);
      QuietStep(typed, k);
      LettersLast(keys);
      var extra := if Accepts(k) then [ToUpper(k[0])] else [];
      assert buf + Letters(keys) == typed + extra;
    }
  }
}
