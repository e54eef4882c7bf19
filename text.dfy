/** .NET string helpers the save and chat code relies on: Char.IsWhiteSpace, String.Trim and
    String.IsNullOrWhiteSpace. A Dafny string is a sequence of Unicode scalar values, where a
    .NET string is a sequence of UTF-16 code units; for text in the Basic Multilingual Plane
    the two agree, and a character outside it counts once here and twice in .NET. */
module Text {
  import opened Wrappers

  /** Char.IsWhiteSpace: the Unicode White_Space characters of the Basic Multilingual Plane. */
  predicate IsWhiteSpace(c: char) {
    ('\U{9}' <= c <= '\U{D}') || c == '\U{20}' || c == '\U{85}' || c == '\U{A0}' || c == '\U{1680}'
    || ('\U{2000}' <= c <= '\U{200A}') || c == '\U{2028}' || c == '\U{2029}' || c == '\U{202F}'
    || c == '\U{205F}' || c == '\U{3000}'
  }

  predicate AllWhiteSpace(s: string) {
    forall i :: 0 <= i < |s| ==> IsWhiteSpace(s[i])
  }

  /** String.IsNullOrWhiteSpace: null, empty, or nothing but white space. */
  predicate IsNullOrWhiteSpace(s: Option<string>) {
    s.None? || AllWhiteSpace(s.value)
  }

  /** String.IsNullOrEmpty. */
  predicate IsNullOrEmpty(s: Option<string>) {
    s.None? || s.value == []
  }

  function TrimStart(s: string): string {
    if s != [] && IsWhiteSpace(s[0]) then TrimStart(s[1..]) else s
  }

  function TrimEnd(s: string): string {
    if s != [] && IsWhiteSpace(s[|s| - 1]) then TrimEnd(s[..|s| - 1]) else s
  }

  /** String.Trim: drops the white space at both ends. */
  function Trim(s: string): string {
    TrimEnd(TrimStart(s))
  }

  lemma {:induction false} TrimStartSlice(s: string) returns (i: nat)
    ensures i <= |s| && TrimStart(s) == s[i..]
    ensures forall k :: 0 <= k < i ==> IsWhiteSpace(s[k])
    ensures i < |s| ==> !IsWhiteSpace(s[i])
    decreases |s|
  {
    if s != [] && IsWhiteSpace(s[0]) {
      var j := TrimStartSlice(s[1..]);
      i := j + 1;
      assert s[1..][j..] == s[i..];
      forall k | 0 <= k < i
        ensures IsWhiteSpace(s[k])
      {
        if k > 0 {
          assert s[k] == s[1..][k - 1];
        }
      }
    } else {
      i := 0;
    }
  }

  lemma {:induction false} TrimEndSlice(s: string) returns (j: nat)
    ensures j <= |s| && TrimEnd(s) == s[..j]
    ensures forall k :: j <= k < |s| ==> IsWhiteSpace(s[k])
    ensures 0 < j ==> !IsWhiteSpace(s[j - 1])
    decreases |s|
  {
    if s != [] && IsWhiteSpace(s[|s| - 1]) {
      var front := s[..|s| - 1];
      j := TrimEndSlice(front);
      assert front[..j] == s[..j];
      forall k | j <= k < |s|
        ensures IsWhiteSpace(s[k])
      {
        if k < |s| - 1 {
          assert s[k] == front[k];
        }
      }
    } else {
      j := |s|;
    }
  }

  /** Trim keeps one contiguous stretch of its input: everything before and after it is white
      space, and the stretch neither starts nor ends with white space. */
  lemma TrimSlice(s: string) returns (i: nat, j: nat)
    ensures i <= j <= |s| && Trim(s) == s[i..j]
    ensures forall k :: 0 <= k < i ==> IsWhiteSpace(s[k])
    ensures forall k :: j <= k < |s| ==> IsWhiteSpace(s[k])
    ensures i < j ==> !IsWhiteSpace(s[i]) && !IsWhiteSpace(s[j - 1])
  {
    i := TrimStartSlice(s);
    var rest := s[i..];
    var n := TrimEndSlice(rest);
    j := i + n;
    assert rest[..n] == s[i..j];
    forall k | j <= k < |s|
      ensures IsWhiteSpace(s[k])
    {
      assert s[k] == rest[k - i];
    }
    if i < j {
      assert s[j - 1] == rest[n - 1];
    }
  }

  /** The trimmed text is empty exactly when the input is nothing but white space. */
  lemma TrimEmpty(s: string)
    ensures Trim(s) == [] <==> AllWhiteSpace(s)
  {
    var i, j := TrimSlice(s);
    if Trim(s) != [] {
      assert !IsWhiteSpace(s[i]);
    }
  }

  lemma TrimIdempotent(s: string)
    ensures Trim(Trim(s)) == Trim(s)
  {
    var t := Trim(s);
    var i, j := TrimSlice(s);
    if t != [] {
      assert !IsWhiteSpace(t[0]) && !IsWhiteSpace(t[|t| - 1]);
      assert TrimStart(t) == t;
    }
  }
}
