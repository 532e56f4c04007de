/** Character- and string-level primitives that the handlers borrow from
    JavaScript: `toLowerCase`, splitting on `/\s+/`, `String.prototype.includes`,
    `slice` and the decimal rendering of an offset inside a template literal. */
module Text {
  import opened Results

  // ---------------------------------------------------------------------------
  // Lower-casing and white space
  // ---------------------------------------------------------------------------

  /** `toLowerCase` restricted to ASCII letters; every other character is kept. */
  function LowerChar(c: char): char
  {
    if 'A' <= c <= 'Z' then (c as int + 32) as char else c
  }

  function Lower(s: string): (r: string)
    ensures |r| == |s|
    ensures forall i :: 0 <= i < |s| ==> r[i] == LowerChar(s[i])
  {
    if s == [] then [] else [LowerChar(s[0])] + Lower(s[1..])
  }

  /** Text without ASCII capitals is its own lower-case form. */
  lemma LowerOfLowercase(s: string)
    requires forall i :: 0 <= i < |s| ==> !('A' <= s[i] <= 'Z')
    ensures Lower(s) == s
  {
  }

  /** The characters matched by `\s` in a JavaScript regular expression,
      by code point. */
  predicate IsSpace(c: char)
  {
    var n := c as int;
    n == 0x09 || n == 0x0A || n == 0x0B || n == 0x0C || n == 0x0D || n == 0x20
    || n == 0xA0 || n == 0x1680 || (0x2000 <= n <= 0x200A) || n == 0x2028 || n == 0x2029
    || n == 0x202F || n == 0x205F || n == 0x3000 || n == 0xFEFF
  }

  lemma LowerKeepsSpaces(s: string)
    ensures forall i :: 0 <= i < |s| ==> (IsSpace(Lower(s)[i]) <==> IsSpace(s[i]))
  {
  }

  /** Lower-casing commutes with taking a suffix. */
  lemma LowerSuffix(s: string, k: nat)
    requires k <= |s|
    ensures Lower(s)[k..] == Lower(s[k..])
  {
    assert forall i :: 0 <= i < |s| - k ==> Lower(s)[k..][i] == Lower(s[k..])[i];
  }

  // ---------------------------------------------------------------------------
  // Tokenising: splitting on runs of white space, empty pieces dropped
  // ---------------------------------------------------------------------------

  /** The longest prefix of `s` free of white space. */
  function WordAt(s: string): (w: string)
    ensures |w| <= |s| && w == s[..|w|]
    ensures forall i :: 0 <= i < |w| ==> !IsSpace(w[i])
    ensures |w| < |s| ==> IsSpace(s[|w|])
    ensures s != [] && !IsSpace(s[0]) ==> |w| > 0
  {
    if s == [] || IsSpace(s[0]) then [] else [s[0]] + WordAt(s[1..])
  }

  /** The maximal runs of non-space characters of `s`, in order: what
      splitting on `/\s+/` and dropping the empty strings leaves. */
  function Tokens(s: string): seq<string>
    decreases |s|
  {
    if s == [] then []
    else if IsSpace(s[0]) then Tokens(s[1..])
    else
      var w := WordAt(s);
      [w] + Tokens(s[|w|..])
  }

  /** Every token is a non-empty run of non-space characters. */
  lemma {:induction false} TokensAreWords(s: string)
    ensures forall t :: t in Tokens(s) ==> |t| > 0
    ensures forall t :: t in Tokens(s) ==> forall i :: 0 <= i < |t| ==> !IsSpace(t[i])
    decreases |s|
  {
    if s != [] {
      if IsSpace(s[0]) {
        TokensAreWords(s[1..]);
      } else {
        TokensAreWords(s[|WordAt(s)|..]);
      }
    }
  }

  /** A white-space character ends the word in front of it. */
  lemma {:induction false} WordAtBeforeSpace(a: string, rest: string)
    requires rest != [] && IsSpace(rest[0])
    ensures WordAt(a + rest) == WordAt(a)
    decreases |a|
  {
    if a == [] {
      assert a + rest == rest;
    } else {
      assert (a + rest)[0] == a[0];
      assert (a + rest)[1..] == a[1..] + rest;
      WordAtBeforeSpace(a[1..], rest);
    }
  }

  /** One step of `Tokens` on a string that starts with a word. */
  lemma TokensWordHead(s: string)
    requires s != [] && !IsSpace(s[0])
    ensures Tokens(s) == [WordAt(s)] + Tokens(s[|WordAt(s)|..])
  {
  }

  /** Cutting a string after its first word does not change that word. */
  lemma {:induction false} WordAtOfPrefix(s: string, k: nat)
    requires |WordAt(s)| <= k <= |s|
    ensures WordAt(s[..k]) == WordAt(s)
    decreases k
  {
    if s != [] && !IsSpace(s[0]) {
      assert s[..k][1..] == s[1..][..k - 1];
      WordAtOfPrefix(s[1..], k - 1);
    }
  }

  /** The first word ends at or before any white-space character. */
  lemma WordEndsBySpace(s: string, k: nat)
    requires k < |s| && IsSpace(s[k])
    ensures |WordAt(s)| <= k
  {
    var w := WordAt(s);
    assert forall i :: 0 <= i < |w| ==> w[i] == s[i];
  }

  /** The step of `TokensSplitAt` for a leading white-space character. */
  lemma TokensSplitAtSpaceStep(s: string, k: nat)
    requires 0 < k < |s| && IsSpace(s[k]) && IsSpace(s[0])
    requires Tokens(s[1..]) == Tokens(s[1..][..k - 1]) + Tokens(s[1..][k..])
    ensures Tokens(s) == Tokens(s[..k]) + Tokens(s[k + 1..])
  {
    assert s[1..][..k - 1] == s[..k][1..];
    assert s[1..][k..] == s[k + 1..];
  }

  /** The step of `TokensSplitAt` for a leading word. */
  lemma TokensSplitAtWordStep(s: string, k: nat)
    requires k < |s| && IsSpace(s[k]) && !IsSpace(s[0])
    requires |WordAt(s)| <= k
    requires Tokens(s[|WordAt(s)|..])
          == Tokens(s[|WordAt(s)|..][..k - |WordAt(s)|]) + Tokens(s[|WordAt(s)|..][k - |WordAt(s)| + 1..])
    ensures Tokens(s) == Tokens(s[..k]) + Tokens(s[k + 1..])
  {
    var w := WordAt(s);
    WordAtOfPrefix(s, k);
    assert s[|w|..][..k - |w|] == s[..k][|w|..];
    assert s[|w|..][k - |w| + 1..] == s[k + 1..];
    TokensWordHead(s);
    TokensWordHead(s[..k]);
  }

  /** Every white-space character is a split point: the tokens of `s` are the
      tokens before position `k` followed by the tokens after it. */
  lemma {:induction false} TokensSplitAt(s: string, k: nat)
    requires k < |s| && IsSpace(s[k])
    ensures Tokens(s) == Tokens(s[..k]) + Tokens(s[k + 1..])
    decreases k
  {
    if k == 0 {
      assert s[..0] == [];
    } else if IsSpace(s[0]) {
      TokensSplitAt(s[1..], k - 1);
      TokensSplitAtSpaceStep(s, k);
    } else {
      WordEndsBySpace(s, k);
      TokensSplitAt(s[|WordAt(s)|..], k - |WordAt(s)|);
      TokensSplitAtWordStep(s, k);
    }
  }

  /** Splitting at white space, the same fact with the pieces named: the
      tokens of `a`, a white-space character and `b` are the tokens of `a`
      followed by the tokens of `b`. */
  lemma TokensSplitAtSpace(a: string, c: char, b: string)
    requires IsSpace(c)
    ensures Tokens(a + [c] + b) == Tokens(a) + Tokens(b)
  {
    var s := a + [c] + b;
    assert s[|a|] == c;
    assert s[..|a|] == a;
    assert s[|a| + 1..] == b;
    TokensSplitAt(s, |a|);
  }

  /** Lower-casing a string lower-cases its first word. */
  lemma {:induction false} WordAtLower(s: string)
    ensures WordAt(Lower(s)) == Lower(WordAt(s))
    decreases |s|
  {
    if s != [] && !IsSpace(s[0]) {
      LowerSuffix(s, 1);
      WordAtLower(s[1..]);
    }
  }

  /** Each string of `ts` lower-cased, in order. */
  function LowerEach(ts: seq<string>): (r: seq<string>)
    ensures |r| == |ts|
    ensures forall j :: 0 <= j < |ts| ==> r[j] == Lower(ts[j])
  {
    if ts == [] then [] else [Lower(ts[0])] + LowerEach(ts[1..])
  }

  /** Lower-casing before splitting gives the same split as splitting first:
      the tokens of the lower-cased string are the lower-cased tokens. */
  lemma {:induction false} TokensOfLower(s: string)
    ensures Tokens(Lower(s)) == LowerEach(Tokens(s))
    decreases |s|
  {
    var ls := Lower(s);
    if s == [] {
    } else if IsSpace(s[0]) {
      LowerSuffix(s, 1);
      TokensOfLower(s[1..]);
    } else {
      var w := WordAt(s);
      WordAtLower(s);
      LowerSuffix(s, |w|);
      TokensOfLower(s[|w|..]);
      assert Tokens(ls) == [Lower(w)] + Tokens(Lower(s[|w|..]));
      assert Tokens(s) == [w] + Tokens(s[|w|..]);
      assert LowerEach([w] + Tokens(s[|w|..])) == [Lower(w)] + LowerEach(Tokens(s[|w|..]));
    }
  }

  /** A single word is its own one token. */
  lemma TokensOfWord(w: string)
    requires w != [] && forall i :: 0 <= i < |w| ==> !IsSpace(w[i])
    ensures Tokens(w) == [w]
  {
    assert WordAt(w) == w;
    assert w[|w|..] == [];
  }

  /** `s` with every white-space character removed. */
  function Squeeze(s: string): string
  {
    if s == [] then []
    else (if IsSpace(s[0]) then [] else [s[0]]) + Squeeze(s[1..])
  }

  function Concat(ts: seq<string>): string
  {
    if ts == [] then [] else ts[0] + Concat(ts[1..])
  }

  lemma {:induction false} SqueezeAppend(a: string, b: string)
    ensures Squeeze(a + b) == Squeeze(a) + Squeeze(b)
    decreases |a|
  {
    if a == [] {
      assert a + b == b;
    } else {
      assert (a + b)[1..] == a[1..] + b;
      SqueezeAppend(a[1..], b);
    }
  }

  lemma {:induction false} SqueezeWord(w: string)
    requires forall i :: 0 <= i < |w| ==> !IsSpace(w[i])
    ensures Squeeze(w) == w
    decreases |w|
  {
    if w != [] {
      SqueezeWord(w[1..]);
    }
  }

  /** Tokenising loses exactly the white space: the tokens, put back together,
      are the question's non-space characters in their original order. */
  lemma {:induction false} TokensCoverNonSpace(s: string)
    ensures Concat(Tokens(s)) == Squeeze(s)
    decreases |s|
  {
    if s == [] {
    } else if IsSpace(s[0]) {
      TokensCoverNonSpace(s[1..]);
    } else {
      var w := WordAt(s);
      var rest := s[|w|..];
      TokensWordHead(s);
      assert Concat([w] + Tokens(rest)) == w + Concat(Tokens(rest));
      TokensCoverNonSpace(rest);
      assert s == w + rest;
      SqueezeAppend(w, rest);
      SqueezeWord(w);
    }
  }

  /** A string yields no tokens exactly when it is all white space (an empty
      string included). */
  lemma {:induction false} TokensEmptyIff(s: string)
    ensures Tokens(s) == [] <==> forall i :: 0 <= i < |s| ==> IsSpace(s[i])
    decreases |s|
  {
    if s != [] {
      TokensEmptyIff(s[1..]);
      if IsSpace(s[0]) {
        assert forall i :: 1 <= i < |s| ==> s[i] == s[1..][i - 1];
      }
    }
  }

  // ---------------------------------------------------------------------------
  // Substring search (`includes`)
  // ---------------------------------------------------------------------------

  /** `w` occurs in `hay` starting at position `i`. */
  predicate OccursAt(hay: string, w: string, i: int)
  {
    0 <= i && i + |w| <= |hay| && hay[i..i + |w|] == w
  }

  /** Whether `w` is a substring of `hay`, scanning start positions left to right. */
  predicate Includes(hay: string, w: string)
    decreases |hay|
  {
    |w| <= |hay| && (hay[..|w|] == w || Includes(hay[1..], w))
  }

  /** The scan finds `w` exactly when `w` occurs at some position of `hay`. */
  lemma {:induction false} IncludesIff(hay: string, w: string)
    ensures Includes(hay, w) <==> exists i :: OccursAt(hay, w, i)
    decreases |hay|
  {
    if |w| <= |hay| {
      if hay[..|w|] == w {
        assert OccursAt(hay, w, 0);
      } else {
        IncludesIff(hay[1..], w);
        if Includes(hay[1..], w) {
          var i :| OccursAt(hay[1..], w, i);
          assert hay[1..][i..i + |w|] == hay[i + 1..i + 1 + |w|];
          assert OccursAt(hay, w, i + 1);
        } else {
          forall i | OccursAt(hay, w, i) ensures i > 0 && OccursAt(hay[1..], w, i - 1) {
            assert hay[1..][i - 1..i - 1 + |w|] == hay[i..i + |w|];
          }
        }
      }
    }
  }

  /** A non-empty string found in `hay` starts with a character of `hay`. */
  lemma IncludesFirstChar(hay: string, w: string)
    requires |w| > 0
    ensures Includes(hay, w) ==> w[0] in hay
  {
    IncludesIff(hay, w);
    if Includes(hay, w) {
      var i :| OccursAt(hay, w, i);
      assert hay[i] == hay[i..i + |w|][0];
    }
  }

  // ---------------------------------------------------------------------------
  // `slice` with JavaScript's clamping
  // ---------------------------------------------------------------------------

  /** JavaScript's `slice` for non-negative arguments: both ends are clamped
      to the length, and an end before the start gives the empty string. */
  function Slice(s: string, start: nat, end: nat): string
  {
    var a := Min(start, |s|);
    var b := Min(end, |s|);
    if b <= a then [] else s[a..b]
  }

  // ---------------------------------------------------------------------------
  // Decimal rendering of a natural number inside a template literal
  // ---------------------------------------------------------------------------

  predicate IsDigit(c: char)
  {
    '0' <= c <= '9'
  }

  function DigitValue(c: char): nat
    requires IsDigit(c)
  {
    c as int - '0' as int
  }

  function DigitChar(d: nat): (c: char)
    requires d < 10
    ensures IsDigit(c) && DigitValue(c) == d
  {
    ('0' as int + d) as char
  }

  /** The decimal numeral of `n`: only digits, no leading zero. */
  function Dec(n: nat): (s: string)
    ensures |s| > 0
    ensures forall i :: 0 <= i < |s| ==> IsDigit(s[i])
    ensures s[0] == '0' <==> n == 0
    ensures |s| == 1 <==> n < 10
    decreases n
  {
    if n < 10 then [DigitChar(n)] else Dec(n / 10) + [DigitChar(n % 10)]
  }

  /** The value of a numeral; the inverse of `Dec`. */
  function ParseDec(s: string): nat
    requires forall i :: 0 <= i < |s| ==> IsDigit(s[i])
  {
    if s == [] then 0
    else ParseDec(s[..|s| - 1]) * 10 + DigitValue(s[|s| - 1])
  }

  lemma {:induction false} ParseDecOfDec(n: nat)
    ensures ParseDec(Dec(n)) == n
    decreases n
  {
    if n >= 10 {
      var s := Dec(n);
      assert s[..|s| - 1] == Dec(n / 10);
      ParseDecOfDec(n / 10);
    }
  }

  /** Distinct numbers have distinct numerals. */
  lemma DecInjective(m: nat, n: nat)
    ensures Dec(m) == Dec(n) ==> m == n
  {
    ParseDecOfDec(m);
    ParseDecOfDec(n);
  }
}
