/** String helpers standing in for the Python built-ins the assistant relies on:
    `sub in s` on strings, `str.lower()`, `str.strip()` and `sep.join(xs)`. */
module Text {

  /** `sub` occurs in `s` starting at index `i`. */
  predicate OccursAt(s: string, sub: string, i: int)
  {
    0 <= i && i + |sub| <= |s| && s[i..i + |sub|] == sub
  }

  /** Python's `sub in s` for strings: `sub` is a contiguous piece of `s`. */
  predicate Contains(s: string, sub: string)
    ensures Contains(s, sub) ==> |sub| <= |s|
    ensures sub == [] ==> Contains(s, sub)
  {
    assert sub == [] ==> OccursAt(s, sub, 0);
    exists i :: 0 <= i <= |s| - |sub| && OccursAt(s, sub, i)
  }

  lemma ContainsWitness(s: string, sub: string, i: int)
    requires OccursAt(s, sub, i)
    ensures Contains(s, sub)
  {
  }

  /** A string never contains a longer one. */
  lemma NotContainsLonger(s: string, sub: string)
    requires |s| < |sub|
    ensures !Contains(s, sub)
  {
  }

  /** If some character of `sub` does not appear in `s` at all, `sub` is not in `s`. */
  lemma NotContainsMissingChar(s: string, sub: string, c: char)
    requires c in sub && c !in s
    ensures !Contains(s, sub)
  {
  }

  /** If two neighbouring characters of `sub` never appear side by side in `s`, `sub` is not
      in `s`. */
  lemma NotContainsMissingPair(s: string, sub: string, j: nat)
    requires j + 1 < |sub|
    requires forall k :: 0 <= k < |s| - 1 ==> !(s[k] == sub[j] && s[k + 1] == sub[j + 1])
    ensures !Contains(s, sub)
  {
    forall i | 0 <= i <= |s| - |sub|
      ensures !OccursAt(s, sub, i)
    {
      assert s[i..i + |sub|][j] == s[i + j] && s[i..i + |sub|][j + 1] == s[i + j + 1];
    }
  }

  /** Containment is transitive: a piece of a piece of `s` is a piece of `s`. */
  lemma ContainsTransitive(s: string, mid: string, sub: string)
    requires Contains(s, mid) && Contains(mid, sub)
    ensures Contains(s, sub)
  {
    var i :| 0 <= i <= |s| - |mid| && OccursAt(s, mid, i);
    var j :| 0 <= j <= |mid| - |sub| && OccursAt(mid, sub, j);
    forall k | 0 <= k < |sub|
      ensures s[i + j + k] == sub[k]
    {
      assert mid[j + k] == sub[k];
      assert s[i + (j + k)] == mid[j + k];
    }
    assert s[i + j..i + j + |sub|] == sub;
    ContainsWitness(s, sub, i + j);
  }

  /** Every string contains itself. */
  lemma ContainsSelf(s: string)
    ensures Contains(s, s)
  {
    assert s[0..|s|] == s;
    ContainsWitness(s, s, 0);
  }

  /** Appending to a string keeps what it contains. */
  lemma ContainsAppended(s: string, b: string, sub: string)
    requires Contains(s, sub)
    ensures Contains(s + b, sub)
  {
    var i :| 0 <= i <= |s| - |sub| && OccursAt(s, sub, i);
    assert (s + b)[i..i + |sub|] == s[i..i + |sub|];
    ContainsWitness(s + b, sub, i);
  }

  /** A string ends with what was appended to it. */
  lemma ContainsEnd(a: string, s: string)
    ensures Contains(a + s, s)
  {
    assert (a + s)[|a|..|a| + |s|] == s;
    ContainsWitness(a + s, s, |a|);
  }

  /** `a + m + b` starts with `a` and ends with `b`. */
  lemma ConcatEnds(a: string, m: string, b: string)
    ensures |a + m + b| >= |a| + |b|
    ensures (a + m + b)[..|a|] == a && (a + m + b)[|a + m + b| - |b|..] == b
  {
  }

  /** A string is contained in any concatenation that has it as a middle part. */
  lemma ContainsMiddle(a: string, m: string, b: string)
    ensures Contains(a + m + b, m)
  {
    assert (a + m + b)[|a|..|a| + |m|] == m;
    ContainsWitness(a + m + b, m, |a|);
  }

  // ---------------------------------------------------------------------------
  // Lower-casing

  /** ASCII case folding of one character; every other character is kept. */
  function LowerChar(c: char): (r: char)
    ensures 'A' <= c <= 'Z' ==> 'a' <= r <= 'z' && r as int - c as int == 32
    ensures !('A' <= c <= 'Z') ==> r == c
  {
    if 'A' <= c <= 'Z' then (c as int + 32) as char else c
  }

  /** `s.lower()`, restricted to ASCII letters. */
  function Lower(s: string): (r: string)
    ensures |r| == |s|
    ensures forall i :: 0 <= i < |s| ==> r[i] == LowerChar(s[i])
  {
    seq(|s|, i requires 0 <= i < |s| => LowerChar(s[i]))
  }

  /** A string without upper-case ASCII letters. */
  predicate IsLowerCase(s: string)
  {
    forall i :: 0 <= i < |s| ==> !('A' <= s[i] <= 'Z')
  }

  lemma LowerIsLowerCase(s: string)
    ensures IsLowerCase(Lower(s))
  {
  }

  /** Lower-case strings are fixed points of `Lower`, so lower-casing twice is lower-casing once. */
  lemma LowerFixesLowerCase(s: string)
    requires IsLowerCase(s)
    ensures Lower(s) == s
  {
  }

  lemma LowerIdempotent(s: string)
    ensures Lower(Lower(s)) == Lower(s)
  {
    LowerIsLowerCase(s);
    LowerFixesLowerCase(Lower(s));
  }

  /** Lower-casing works piece by piece. */
  lemma LowerAppend(a: string, b: string)
    ensures Lower(a + b) == Lower(a) + Lower(b)
  {
  }

  /** A lower-case piece of `s` is still a piece of `s` once `s` is lower-cased. */
  lemma LowerKeepsLowerCasePiece(s: string, sub: string)
    requires Contains(s, sub) && IsLowerCase(sub)
    ensures Contains(Lower(s), sub)
  {
    var i :| 0 <= i <= |s| - |sub| && OccursAt(s, sub, i);
    var t := Lower(s);
    forall k | 0 <= k < |sub|
      ensures t[i + k] == sub[k]
    {
      assert s[i + k] == s[i..i + |sub|][k];
    }
    assert t[i..i + |sub|] == sub;
    ContainsWitness(t, sub, i);
  }

  // ---------------------------------------------------------------------------
  // Whitespace stripping

  /** The characters Python's `str.isspace()` accepts, so the ones `str.strip()` removes. */
  predicate IsSpace(c: char)
    ensures ('a' <= c <= 'z' || 'A' <= c <= 'Z' || '0' <= c <= '9') ==> !IsSpace(c)
  {
    || c == ' ' || c == '\t' || c == '\n' || c == '\r'
    || c == '\U{000B}' || c == '\U{000C}'
    || ('\U{001C}' <= c <= '\U{001F}')
    || c == '\U{0085}' || c == '\U{00A0}' || c == '\U{1680}'
    || ('\U{2000}' <= c <= '\U{200A}')
    || c == '\U{2028}' || c == '\U{2029}' || c == '\U{202F}' || c == '\U{205F}' || c == '\U{3000}'
  }

  /** `s.lstrip()`: the suffix of `s` that starts at its first non-space character. */
  function TrimStart(s: string): (r: string)
    ensures |r| <= |s| && r == s[|s| - |r|..]
    ensures r == [] || !IsSpace(r[0])
  {
    if s == [] || !IsSpace(s[0]) then s else TrimStart(s[1..])
  }

  /** `s.rstrip()`: the prefix of `s` that ends at its last non-space character. */
  function TrimEnd(s: string): (r: string)
    ensures |r| <= |s| && r == s[..|r|]
    ensures r == [] || !IsSpace(r[|r| - 1])
  {
    if s == [] || !IsSpace(s[|s| - 1]) then s else TrimEnd(s[..|s| - 1])
  }

  /** What `lstrip()` removes is all space. */
  lemma {:induction false} TrimStartRemovesSpaces(s: string)
    ensures forall k :: 0 <= k < |s| - |TrimStart(s)| ==> IsSpace(s[k])
  {
    if s != [] && IsSpace(s[0]) {
      TrimStartRemovesSpaces(s[1..]);
      forall k | 1 <= k < |s| - |TrimStart(s)|
        ensures IsSpace(s[k])
      {
        assert s[k] == s[1..][k - 1];
      }
    }
  }

  /** What `rstrip()` removes is all space. */
  lemma {:induction false} TrimEndRemovesSpaces(s: string)
    ensures forall k :: |TrimEnd(s)| <= k < |s| ==> IsSpace(s[k])
  {
    if s != [] && IsSpace(s[|s| - 1]) {
      TrimEndRemovesSpaces(s[..|s| - 1]);
      forall k | |TrimEnd(s)| <= k < |s| - 1
        ensures IsSpace(s[k])
      {
        assert s[k] == s[..|s| - 1][k];
      }
    }
  }

  /** Trimming at the end keeps the first character. */
  lemma TrimEndKeepsFirst(t: string)
    ensures TrimEnd(t) != [] ==> TrimEnd(t)[0] == t[0]
  {
  }

  /** `s.strip()`: no longer than `s`, and neither starting nor ending with a space. */
  function Strip(s: string): (r: string)
    ensures |r| <= |s|
    ensures r == [] || (!IsSpace(r[0]) && !IsSpace(r[|r| - 1]))
  {
    TrimEndKeepsFirst(TrimStart(s));
    TrimEnd(TrimStart(s))
  }

  /** A prefix of a suffix of `s` is a contiguous piece of `s`. */
  lemma PrefixOfSuffix(s: string, t: string, r: string)
    requires |t| <= |s| && t == s[|s| - |t|..]
    requires |r| <= |t| && r == t[..|r|]
    ensures |s| - |t| + |r| <= |s| && r == s[|s| - |t|..|s| - |t| + |r|]
  {
  }

  /** The stripped string is the piece of `s` that starts after the leading spaces. */
  lemma StripIsPiece(s: string)
    ensures var i := |s| - |TrimStart(s)|;
            i + |Strip(s)| <= |s| && Strip(s) == s[i..i + |Strip(s)|]
  {
    PrefixOfSuffix(s, TrimStart(s), Strip(s));
  }

  /** Everything after the stripped piece is space. */
  lemma StripTrailing(s: string)
    ensures var i := |s| - |TrimStart(s)|;
            forall k :: i + |Strip(s)| <= k < |s| ==> IsSpace(s[k])
  {
    var t := TrimStart(s);
    var r := TrimEnd(t);
    var i := |s| - |t|;
    TrimEndRemovesSpaces(t);
    assert t == s[i..];
    forall k | i + |r| <= k < |s|
      ensures IsSpace(s[k])
    {
      assert s[k] == t[k - i];
    }
  }

  /** `Strip` removes exactly a run of leading and a run of trailing spaces: the result `r` is
      the piece `s[i..i + |r|]`, everything around it is space, and `r` itself neither starts
      nor ends with a space. */
  lemma StripSpec(s: string)
    ensures var i := |s| - |TrimStart(s)|; var r := Strip(s);
            && i + |r| <= |s| && r == s[i..i + |r|]
            && (forall k :: 0 <= k < i ==> IsSpace(s[k]))
            && (forall k :: i + |r| <= k < |s| ==> IsSpace(s[k]))
            && (r == [] || (!IsSpace(r[0]) && !IsSpace(r[|r| - 1])))
  {
    StripIsPiece(s);
    TrimStartRemovesSpaces(s);
    StripTrailing(s);
  }

  /** A string with no space at either end is left unchanged. */
  lemma StripNoSurroundingSpace(s: string)
    requires s == [] || (!IsSpace(s[0]) && !IsSpace(s[|s| - 1]))
    ensures Strip(s) == s
  {
  }

  lemma StripIdempotent(s: string)
    ensures Strip(Strip(s)) == Strip(s)
  {
    StripNoSurroundingSpace(Strip(s));
  }

  // ---------------------------------------------------------------------------
  // Joining

  /** `sep.join(xs)`: the pieces in order with `sep` between neighbours. */
  function Join(sep: string, xs: seq<string>): (r: string)
    ensures |xs| > 0 ==> |r| == TotalLength(xs) + (|xs| - 1) * |sep|
  {
    if |xs| == 0 then ""
    else if |xs| == 1 then assert xs[..0] == []; xs[0]
    else
      var n := |xs|;
      assert (n - 1) * |sep| == (n - 2) * |sep| + |sep|;
      Join(sep, xs[..n - 1]) + sep + xs[n - 1]
  }

  /** Joining two non-empty lists is joining each and putting one separator between. */
  lemma {:induction false} JoinAppend(sep: string, xs: seq<string>, ys: seq<string>)
    requires |xs| > 0 && |ys| > 0
    ensures Join(sep, xs + ys) == Join(sep, xs) + sep + Join(sep, ys)
  {
    if |ys| == 1 {
      assert (xs + ys)[..|xs + ys| - 1] == xs;
    } else {
      var ys' := ys[..|ys| - 1];
      assert (xs + ys)[..|xs + ys| - 1] == xs + ys';
      JoinAppend(sep, xs, ys');
    }
  }

  /** Total length of the pieces, as `sum(len(x) for x in xs)`. */
  function TotalLength(xs: seq<string>): nat
  {
    if xs == [] then 0 else TotalLength(xs[..|xs| - 1]) + |xs[|xs| - 1]|
  }

  /** Every piece appears in the joined string. */
  lemma {:induction false} JoinContainsPiece(sep: string, xs: seq<string>, k: nat)
    requires k < |xs|
    ensures Contains(Join(sep, xs), xs[k])
  {
    if |xs| == 1 {
      ContainsMiddle("", xs[0], "");
      assert "" + xs[0] + "" == xs[0];
    } else if k == |xs| - 1 {
      ContainsMiddle(Join(sep, xs[..|xs| - 1]) + sep, xs[k], "");
      assert Join(sep, xs[..|xs| - 1]) + sep + xs[k] + "" == Join(sep, xs);
    } else {
      var front := Join(sep, xs[..|xs| - 1]);
      JoinContainsPiece(sep, xs[..|xs| - 1], k);
      ContainsMiddle("", front, sep + xs[|xs| - 1]);
      assert "" + front + (sep + xs[|xs| - 1]) == Join(sep, xs);
      ContainsTransitive(Join(sep, xs), front, xs[k]);
    }
  }

  /** Every piece appears in the joined string, all at once. */
  lemma JoinContainsAll(sep: string, xs: seq<string>)
    ensures forall k :: 0 <= k < |xs| ==> Contains(Join(sep, xs), xs[k])
  {
    forall k | 0 <= k < |xs|
      ensures Contains(Join(sep, xs), xs[k])
    {
      JoinContainsPiece(sep, xs, k);
    }
  }
}
