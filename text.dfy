/** String operations the screens apply to user input and file names:
    `trim`, `toLowerCase`, `endsWith` and `split('/').pop()`. */
module Text {

  /** The whitespace that `String.prototype.trim` and Kotlin's `trim()` strip,
      restricted to the ASCII range. */
  predicate IsWhitespace(c: char) {
    c == ' ' || c == '\t' || c == '\n' || c == '\r' || c == '\U{000B}' || c == '\U{000C}'
  }

  predicate AllWhitespace(s: string) {
    forall i :: 0 <= i < |s| ==> IsWhitespace(s[i])
  }

  lemma AllWhitespaceAppend(a: string, b: string)
    requires AllWhitespace(a) && AllWhitespace(b)
    ensures AllWhitespace(a + b)
  {
  }

  lemma Associate(a: string, b: string, c: string)
    ensures a + (b + c) == a + b + c
  {
  }

  lemma Regroup(a: string, b: string, c: string, d: string, e: string)
    ensures a + (b + c + d) + e == (a + b) + c + (d + e)
  {
  }

  /** No whitespace at either end. */
  predicate IsTrimmed(s: string) {
    s == [] || (!IsWhitespace(s[0]) && !IsWhitespace(s[|s| - 1]))
  }

  function TrimStart(s: string): (r: string)
    ensures |r| <= |s| && r == s[|s| - |r|..]
    ensures AllWhitespace(s[..|s| - |r|])
    ensures r == [] || !IsWhitespace(r[0])
  {
    if s != [] && IsWhitespace(s[0]) then TrimStart(s[1..]) else s
  }

  function TrimEnd(s: string): (r: string)
    ensures |r| <= |s| && r == s[..|r|]
    ensures AllWhitespace(s[|r|..])
    ensures r == [] || !IsWhitespace(r[|r| - 1])
  {
    if s != [] && IsWhitespace(s[|s| - 1]) then TrimEnd(s[..|s| - 1]) else s
  }

  /** `s.trim()`: the input without its leading and trailing whitespace. */
  function Trim(s: string): (r: string)
    ensures |r| <= |s|
    ensures IsTrimmed(r)
  {
    TrimEnd(TrimStart(s))
  }

  /** Trim only removes whitespace: the input is the result padded on both sides. */
  lemma {:induction false} TrimDecompose(s: string) returns (front: string, back: string)
    ensures s == front + Trim(s) + back
    ensures AllWhitespace(front) && AllWhitespace(back)
  {
    var t := TrimStart(s);
    front := TrimStartRest(s);
    back := TrimEndRest(t);
    var r := TrimEnd(t);
    assert Trim(s) == r;
    Associate(front, r, back);
  }

  lemma {:induction false} TrimStartRest(s: string) returns (front: string)
    ensures s == front + TrimStart(s) && AllWhitespace(front)
  {
    var t := TrimStart(s);
    front := s[..|s| - |t|];
    assert s == front + t;
  }

  lemma {:induction false} TrimEndRest(t: string) returns (back: string)
    ensures t == TrimEnd(t) + back && AllWhitespace(back)
  {
    var r := TrimEnd(t);
    back := t[|r|..];
    assert t == r + back;
  }

  lemma {:induction false} TrimStartSkipsWhitespace(w: string, t: string)
    requires AllWhitespace(w)
    ensures TrimStart(w + t) == TrimStart(t)
  {
    if w != [] {
      var s := w + t;
      assert s[0] == w[0] && IsWhitespace(s[0]);
      assert s[1..] == w[1..] + t;
      assert TrimStart(s) == TrimStart(s[1..]);
      TrimStartSkipsWhitespace(w[1..], t);
    } else {
      assert w + t == t;
    }
  }

  lemma {:induction false} TrimEndSkipsWhitespace(t: string, w: string)
    requires AllWhitespace(w)
    ensures TrimEnd(t + w) == TrimEnd(t)
  {
    if w != [] {
      var n := |w| - 1;
      assert (t + w)[|t + w| - 1] == w[n];
      assert (t + w)[..|t + w| - 1] == t + w[..n];
      TrimEndSkipsWhitespace(t, w[..n]);
    } else {
      assert t + w == t;
    }
  }

  lemma TrimStartOfUnpadded(t: string)
    requires t == [] || !IsWhitespace(t[0])
    ensures TrimStart(t) == t
  {
  }

  lemma TrimEndOfUnpadded(t: string)
    requires t == [] || !IsWhitespace(t[|t| - 1])
    ensures TrimEnd(t) == t
  {
  }

  /** Trim is determined by its two properties: a trimmed string padded with
      whitespace on both sides trims back to itself. */
  lemma {:induction false} TrimOfPadded(front: string, r: string, back: string)
    requires AllWhitespace(front) && AllWhitespace(back) && IsTrimmed(r)
    ensures Trim(front + r + back) == r
  {
    var s := front + r + back;
    assert s == front + (r + back);
    TrimStartSkipsWhitespace(front, r + back);
    var t := TrimStart(r + back);
    if r == [] {
      assert r + back == back + [];
      TrimStartSkipsWhitespace(back, []);
      TrimStartOfUnpadded([]);
      assert t == [];
      TrimEndOfUnpadded([]);
    } else {
      assert (r + back)[0] == r[0];
      TrimStartOfUnpadded(r + back);
      assert t == r + back;
      TrimEndSkipsWhitespace(r, back);
      TrimEndOfUnpadded(r);
    }
    assert Trim(s) == TrimEnd(TrimStart(s)) == TrimEnd(t) == r;
  }

  /** Extra whitespace around the input never changes what trim returns. */
  lemma {:induction false} TrimIgnoresPadding(front: string, s: string, back: string)
    requires AllWhitespace(front) && AllWhitespace(back)
    ensures Trim(front + s + back) == Trim(s)
  {
    var f, b := TrimDecompose(s);
    var r := Trim(s);
    Regroup(front, f, r, b, back);
    AllWhitespaceAppend(front, f);
    AllWhitespaceAppend(b, back);
    TrimOfPadded(front + f, r, b + back);
  }

  /** Trimming twice is trimming once. */
  lemma {:induction false} TrimIdempotent(s: string)
    ensures Trim(Trim(s)) == Trim(s)
  {
    var r := Trim(s);
    TrimStartOfUnpadded(r);
    TrimEndOfUnpadded(r);
    assert Trim(r) == TrimEnd(TrimStart(r)) == r;
  }

  /** `c.toLowerCase()` for one character, ASCII letters only. */
  function LowerChar(c: char): (d: char)
    ensures IsWhitespace(c) ==> d == c
    ensures 'A' <= c <= 'Z' ==> 'a' <= d <= 'z'
  {
    if 'A' <= c <= 'Z' then (c as int + 32) as char else c
  }

  /** `s.toLowerCase()`. */
  function ToLower(s: string): (r: string)
    ensures |r| == |s|
    ensures forall i :: 0 <= i < |s| ==> r[i] == LowerChar(s[i])
  {
    if s == [] then [] else [LowerChar(s[0])] + ToLower(s[1..])
  }

  lemma {:induction false} ToLowerAppend(a: string, b: string)
    ensures ToLower(a + b) == ToLower(a) + ToLower(b)
  {
    var l, r := ToLower(a + b), ToLower(a) + ToLower(b);
    assert |l| == |r|;
    forall i | 0 <= i < |l|
      ensures l[i] == r[i]
    {
      if i < |a| {
        assert (a + b)[i] == a[i];
      } else {
        assert (a + b)[i] == b[i - |a|];
      }
    }
  }

  /** Lowering leaves whitespace in place, so it keeps padding as padding. */
  lemma ToLowerKeepsWhitespace(w: string)
    requires AllWhitespace(w)
    ensures ToLower(w) == w
  {
  }

  /** Text without upper-case ASCII letters is its own lower-case form. */
  lemma ToLowerOfLowerCase(s: string)
    requires forall i :: 0 <= i < |s| ==> !('A' <= s[i] <= 'Z')
    ensures ToLower(s) == s
  {
  }

  lemma ToLowerIdempotent(s: string)
    ensures ToLower(ToLower(s)) == ToLower(s)
  {
  }

  /** `s.endsWith(suffix)`. */
  predicate EndsWith(s: string, suffix: string)
    ensures EndsWith(s, suffix) ==> |suffix| <= |s| && s == s[..|s| - |suffix|] + suffix
  {
    |suffix| <= |s| && s[|s| - |suffix|..] == suffix
  }

  predicate StartsWith(s: string, prefix: string) {
    |prefix| <= |s| && s[..|prefix|] == prefix
  }

  /** `s.split('/').pop()`: the longest suffix of `s` that holds no `/`. */
  function LastSegment(s: string): (r: string)
    ensures '/' !in r
    ensures |r| <= |s| && r == s[|s| - |r|..]
    ensures |r| < |s| ==> s[|s| - |r| - 1] == '/'
  {
    if s == [] then []
    else if s[|s| - 1] == '/' then []
    else LastSegment(s[..|s| - 1]) + [s[|s| - 1]]
  }

  /** The segment after the last `/` of `dir + name` is `name` itself. */
  lemma {:induction false} LastSegmentOfJoin(dir: string, name: string)
    requires EndsWith(dir, "/") && '/' !in name
    ensures LastSegment(dir + name) == name
  {
    var s := dir + name;
    if name == [] {
      assert s == dir;
      assert s[|s| - 1] == '/';
    } else {
      var n := |name| - 1;
      var init := name[..n];
      assert name == init + [name[n]];
      assert '/' !in init && name[n] != '/';
      assert s[|s| - 1] == name[n];
      assert s[..|s| - 1] == dir + init;
      LastSegmentOfJoin(dir, init);
    }
  }
}
