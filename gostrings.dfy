/** The parts of Go's `strings` and `unicode` packages that the book pipeline
    relies on: TrimSpace, the byte length `len`, Join, Split and ToLower.
    A Go string is modelled as the sequence of runes it decodes to. */
module GoStrings {

  /** Go's unicode.IsSpace: the Latin-1 white space characters and the other
      characters with Unicode's White_Space property. */
  predicate IsSpace(c: char) {
    c == '\t' || c == '\n' || c == '\U{000B}' || c == '\U{000C}' || c == '\r' || c == ' '
    || c == '\U{0085}' || c == '\U{00A0}' || c == '\U{1680}'
    || ('\U{2000}' <= c <= '\U{200A}')
    || c == '\U{2028}' || c == '\U{2029}' || c == '\U{202F}' || c == '\U{205F}' || c == '\U{3000}'
  }

  /** Leading white space removed: a suffix of `s` that starts with a non-space
      character, and everything cut off is white space. */
  function TrimLeft(s: string): (r: string)
    ensures |r| <= |s| && r == s[|s| - |r|..]
    ensures forall k :: 0 <= k < |s| - |r| ==> IsSpace(s[k])
    ensures r == [] || !IsSpace(r[0])
    decreases |s|
  {
    if |s| > 0 && IsSpace(s[0]) then TrimLeft(s[1..]) else s
  }

  /** Trailing white space removed: a prefix of `s` that ends with a non-space
      character, and everything cut off is white space. */
  function TrimRight(s: string): (r: string)
    ensures |r| <= |s| && r == s[..|r|]
    ensures forall k :: |r| <= k < |s| ==> IsSpace(s[k])
    ensures r == [] || !IsSpace(r[|r| - 1])
    decreases |s|
  {
    if |s| > 0 && IsSpace(s[|s| - 1]) then TrimRight(s[..|s| - 1]) else s
  }

  /** Go's strings.TrimSpace. */
  function TrimSpace(s: string): (r: string)
    ensures |r| <= |s|
    ensures r == [] || (!IsSpace(r[0]) && !IsSpace(r[|r| - 1]))
  {
    TrimRight(TrimLeft(s))
  }

  /** `r` is `s` with its leading and trailing white space cut off and nothing
      else changed: a contiguous slice `s[i..j]` with only white space outside
      it and no white space at either of its ends. */
  ghost predicate IsTrimmedSliceOf(r: string, s: string, i: int, j: int) {
    0 <= i <= j <= |s| && r == s[i..j]
    && (forall k :: 0 <= k < i ==> IsSpace(s[k]))
    && (forall k :: j <= k < |s| ==> IsSpace(s[k]))
    && (r == [] || (!IsSpace(r[0]) && !IsSpace(r[|r| - 1])))
  }

  /** TrimSpace cuts exactly the leading and trailing white space. */
  lemma TrimSpaceIsTrimmedSlice(s: string)
    ensures IsTrimmedSliceOf(TrimSpace(s), s, |s| - |TrimLeft(s)|, |s| - |TrimLeft(s)| + |TrimSpace(s)|)
  {
    TrimmedAfterTrimmed(s, TrimLeft(s), TrimSpace(s));
  }

  /** Cutting white space off the front of `s` and then off the back of what
      remains leaves a trimmed slice of `s`. */
  lemma TrimmedAfterTrimmed(s: string, l: string, r: string)
    requires |l| <= |s| && l == s[|s| - |l|..]
    requires forall k :: 0 <= k < |s| - |l| ==> IsSpace(s[k])
    requires l == [] || !IsSpace(l[0])
    requires |r| <= |l| && r == l[..|r|]
    requires forall k :: |r| <= k < |l| ==> IsSpace(l[k])
    requires r == [] || !IsSpace(r[|r| - 1])
    ensures IsTrimmedSliceOf(r, s, |s| - |l|, |s| - |l| + |r|)
  {
    var i := |s| - |l|;
    forall k | i + |r| <= k < |s| ensures IsSpace(s[k]) {
      assert s[k] == l[k - i];
    }
    if r != [] {
      assert r[0] == l[0];
    }
  }

  /** Cutting a run of white space that ends at a non-space character (or at
      the end) is what TrimLeft does. */
  lemma {:induction false} TrimLeftAt(s: string, i: int)
    requires 0 <= i <= |s|
    requires forall k :: 0 <= k < i ==> IsSpace(s[k])
    requires i == |s| || !IsSpace(s[i])
    ensures TrimLeft(s) == s[i..]
  {
    if i > 0 {
      TrimLeftAt(s[1..], i - 1);
      assert s[1..][i - 1..] == s[i..];
    }
  }

  /** Cutting a run of white space that starts after a non-space character
      (or at the start) is what TrimRight does. */
  lemma {:induction false} TrimRightAt(s: string, j: int)
    requires 0 <= j <= |s|
    requires forall k :: j <= k < |s| ==> IsSpace(s[k])
    requires j == 0 || !IsSpace(s[j - 1])
    ensures TrimRight(s) == s[..j]
  {
    if j < |s| {
      TrimRightAt(s[..|s| - 1], j);
      assert s[..|s| - 1][..j] == s[..j];
    }
  }

  /** The trimmed slice is unique: whatever slice of `s` has only white space
      around it and none at its ends is TrimSpace(s). */
  lemma TrimmedSliceIsUnique(s: string, r: string, i: int, j: int)
    requires IsTrimmedSliceOf(r, s, i, j)
    ensures r == TrimSpace(s)
  {
    if r == [] {
      TrimLeftAt(s, |s|);
    } else {
      TrimLeftAt(s, i);
      TrimmedSuffixIsTrimRight(s, r, i, j);
    }
  }

  /** What TrimLeft leaves of a string with a non-empty trimmed slice loses
      just its trailing white space under TrimRight. */
  lemma TrimmedSuffixIsTrimRight(s: string, r: string, i: int, j: int)
    requires IsTrimmedSliceOf(r, s, i, j) && r != []
    ensures TrimRight(s[i..]) == r
  {
    var l := s[i..];
    forall k | j - i <= k < |l| ensures IsSpace(l[k]) {
      assert l[k] == s[k + i];
    }
    assert l[j - i - 1] == r[|r| - 1];
    TrimRightAt(l, j - i);
    assert l[..j - i] == r;
  }

  /** Trimming twice is trimming once. */
  lemma TrimSpaceIdempotent(s: string)
    ensures TrimSpace(TrimSpace(s)) == TrimSpace(s)
  {
    var t := TrimSpace(s);
    TrimSpaceIsTrimmedSlice(s);
    assert IsTrimmedSliceOf(t, t, 0, |t|) by {
      assert t[0..|t|] == t;
    }
    TrimmedSliceIsUnique(t, t, 0, |t|);
  }

  /** Number of bytes in the UTF-8 encoding of one rune, as Go's
      utf8.RuneLen gives it for a valid rune. */
  function RuneLen(c: char): (n: nat)
    ensures 1 <= n <= 4
    ensures n == 1 <==> c < '\U{80}'
  {
    if c < '\U{80}' then 1
    else if c < '\U{800}' then 2
    else if c < '\U{10000}' then 3
    else 4
  }

  /** Go's `len(s)` on a string: the number of bytes of its UTF-8 encoding. */
  function Utf8Len(s: string): (n: nat)
    ensures |s| <= n <= 4 * |s|
  {
    if s == [] then 0 else RuneLen(s[0]) + Utf8Len(s[1..])
  }

  /** The byte length of a concatenation is the sum of the byte lengths. */
  lemma {:induction false} Utf8LenAppend(a: string, b: string)
    ensures Utf8Len(a + b) == Utf8Len(a) + Utf8Len(b)
  {
    if a == [] {
      assert a + b == b;
    } else {
      Utf8LenAppend(a[1..], b);
      assert (a + b)[0] == a[0] && (a + b)[1..] == a[1..] + b;
    }
  }

  predicate IsAscii(s: string) {
    forall k :: 0 <= k < |s| ==> s[k] < '\U{80}'
  }

  /** The byte length equals the rune count exactly when every rune is ASCII. */
  lemma {:induction false} Utf8LenIsRuneCount(s: string)
    ensures Utf8Len(s) == |s| <==> IsAscii(s)
  {
    if s != [] {
      Utf8LenIsRuneCount(s[1..]);
      if RuneLen(s[0]) > 1 {
        assert Utf8Len(s) > |s|;
      } else {
        assert IsAscii(s) <==> IsAscii(s[1..]) by {
          if IsAscii(s[1..]) {
            forall k | 0 <= k < |s| ensures s[k] < '\U{80}' {
              if k > 0 { assert s[k] == s[1..][k - 1]; }
            }
          }
        }
      }
    }
  }

  /** Go's strings.Join: the elements in their order, with `sep` between
      neighbours. */
  function Join(elems: seq<string>, sep: string): (r: string)
    ensures |elems| > 0 ==> elems[0] <= r
  {
    if |elems| == 0 then ""
    else if |elems| == 1 then elems[0]
    else elems[0] + sep + Join(elems[1..], sep)
  }

  /** Go's strings.Split for a one-character separator: the pieces between
      the separators, never an empty list (Split("") is [""]). */
  function Split(s: string, sep: char): (r: seq<string>)
    ensures |r| == 1 + CountOf(s, sep)
  {
    if s == [] then [""]
    else
      var rest := Split(s[1..], sep);
      if s[0] == sep then [""] + rest
      else [[s[0]] + rest[0]] + rest[1..]
  }

  /** Number of occurrences of `c` in `s`. */
  function CountOf(s: string, c: char): nat {
    if s == [] then 0 else (if s[0] == c then 1 else 0) + CountOf(s[1..], c)
  }

  /** A piece without the separator in it splits to itself, and it comes off
      the front of anything it is joined to. */
  lemma {:induction false} SplitPrefix(x: string, t: string, sep: char)
    requires sep !in x
    ensures Split(x + [sep] + t, sep) == [x] + Split(t, sep)
    ensures Split(x, sep) == [x]
  {
    if x == [] {
      assert [sep] + t == x + [sep] + t;
      assert ([sep] + t)[1..] == t;
    } else {
      SplitPrefix(x[1..], t, sep);
      assert (x + [sep] + t)[1..] == x[1..] + [sep] + t;
      assert [x[0]] + x[1..] == x;
    }
  }

  /** Joining with a one-character separator and splitting on it gives the
      list back, provided the list is not empty and no element holds the
      separator. */
  lemma {:induction false} SplitJoin(elems: seq<string>, sep: char)
    requires |elems| > 0
    requires forall k :: 0 <= k < |elems| ==> sep !in elems[k]
    ensures Split(Join(elems, [sep]), sep) == elems
  {
    if |elems| == 1 {
      SplitPrefix(elems[0], "", sep);
    } else {
      SplitJoin(elems[1..], sep);
      SplitPrefix(elems[0], Join(elems[1..], [sep]), sep);
      assert [elems[0]] + elems[1..] == elems;
    }
  }

  /** Splitting and joining back reproduces every string. */
  lemma {:induction false} JoinSplit(s: string, sep: char)
    ensures Join(Split(s, sep), [sep]) == s
  {
    if s != [] {
      var rest := Split(s[1..], sep);
      JoinSplit(s[1..], sep);
      if s[0] == sep {
        assert Split(s, sep) == [""] + rest;
        assert ([""] + rest)[1..] == rest;
        assert [s[0]] + s[1..] == s;
      } else {
        var pieces := [[s[0]] + rest[0]] + rest[1..];
        assert pieces[1..] == rest[1..];
        if |rest| == 1 {
          assert s == [s[0]] + rest[0];
        } else {
          assert Join(rest, [sep]) == rest[0] + [sep] + Join(rest[1..], [sep]);
          assert s == [s[0]] + s[1..];
        }
      }
    }
  }

  /** The empty list is the one list Join cannot tell apart from [""]. */
  lemma JoinEmptyList(sep: char)
    ensures Join([], [sep]) == "" && Split(Join([], [sep]), sep) == [""]
  {
  }

  /** Go's strings.ToLower restricted to ASCII letters. */
  function ToLowerChar(c: char): char {
    if 'A' <= c <= 'Z' then (c as int + 32) as char else c
  }

  function ToLower(s: string): (r: string)
    ensures |r| == |s|
    ensures forall k :: 0 <= k < |s| ==> r[k] == ToLowerChar(s[k])
    ensures forall k :: 0 <= k < |r| ==> !('A' <= r[k] <= 'Z')
  {
    seq(|s|, k requires 0 <= k < |s| => ToLowerChar(s[k]))
  }

  /** Exactly "n" and "N" lower-case to "n". */
  lemma LowersToN(s: string)
    ensures ToLower(s) == "n" <==> s == "n" || s == "N"
  {
    if ToLower(s) == "n" {
      assert |s| == 1 && ToLowerChar(s[0]) == 'n';
    }
  }
}
