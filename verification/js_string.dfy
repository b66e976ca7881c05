/** The JavaScript string primitives the catalog filters rely on: relational
    `<`, `toLowerCase`, `includes`, `endsWith`, `split` on one character and
    `trim`. Strings are sequences of Unicode scalar values, so comparison is by
    scalar value rather than by UTF-16 code unit. */
module JsString {

  // ---------------------------------------------------------------------
  // Relational comparison `a < b`
  // ---------------------------------------------------------------------

  /** JavaScript's `a < b` on two strings: lexicographic comparison of code
      units, where a proper prefix is smaller than the longer string. */
  predicate Less(a: string, b: string)
    decreases |a|
  {
    if |b| == 0 then false
    else if |a| == 0 then true
    else if a[0] != b[0] then a[0] < b[0]
    else Less(a[1..], b[1..])
  }

  lemma {:induction false} LessIrreflexive(a: string)
    ensures !Less(a, a)
    decreases |a|
  {
    if |a| > 0 {
      LessIrreflexive(a[1..]);
    }
  }

  lemma {:induction false} LessTransitive(a: string, b: string, c: string)
    requires Less(a, b) && Less(b, c)
    ensures Less(a, c)
    decreases |a|
  {
    if |a| > 0 && a[0] == b[0] && b[0] == c[0] {
      LessTransitive(a[1..], b[1..], c[1..]);
    }
  }

  lemma LessAsymmetric(a: string, b: string)
    requires Less(a, b)
    ensures !Less(b, a)
  {
    if Less(b, a) {
      LessTransitive(a, b, a);
      LessIrreflexive(a);
    }
  }

  /** Any two distinct strings are ordered one way or the other. */
  lemma {:induction false} LessTotal(a: string, b: string)
    requires a != b
    ensures Less(a, b) || Less(b, a)
    decreases |a|
  {
    if |a| > 0 && |b| > 0 && a[0] == b[0] {
      assert a == [a[0]] + a[1..] && b == [b[0]] + b[1..];
      LessTotal(a[1..], b[1..]);
    }
  }

  /** Not-less is the same as greater-or-equal. */
  lemma NotLessIsAtLeast(a: string, b: string)
    requires !Less(a, b)
    ensures a == b || Less(b, a)
  {
    if a != b {
      LessTotal(a, b);
    }
  }

  // ---------------------------------------------------------------------
  // toLowerCase (ASCII letters only)
  // ---------------------------------------------------------------------

  predicate IsUpper(c: char) {
    'A' <= c <= 'Z'
  }

  function LowerChar(c: char): (r: char)
    ensures !IsUpper(r)
    ensures !IsUpper(c) ==> r == c
  {
    if IsUpper(c) then (c as int + 32) as char else c
  }

  /** `s.toLowerCase()`, restricted to the ASCII letters. */
  function Lower(s: string): (r: string)
    ensures |r| == |s|
    ensures forall i :: 0 <= i < |s| ==> r[i] == LowerChar(s[i])
    ensures forall i :: 0 <= i < |r| ==> !IsUpper(r[i])
  {
    seq(|s|, i requires 0 <= i < |s| => LowerChar(s[i]))
  }

  /** Lower-casing twice is lower-casing once. */
  lemma LowerIdempotent(s: string)
    ensures Lower(Lower(s)) == Lower(s)
  {
  }

  // ---------------------------------------------------------------------
  // includes / endsWith
  // ---------------------------------------------------------------------

  /** `hay.includes(needle)`: `needle` occurs as a contiguous block of `hay`. */
  predicate Contains(hay: string, needle: string)
    decreases |hay|
  {
    needle <= hay || (|hay| > 0 && Contains(hay[1..], needle))
  }

  /** `needle` sits in `hay` starting at offset `k`. */
  ghost predicate OccursAt(hay: string, needle: string, k: int) {
    0 <= k <= |hay| - |needle| && hay[k..k + |needle|] == needle
  }

  /** `Contains` means exactly: `needle` sits in `hay` at some offset. */
  lemma {:induction false} ContainsAtOffset(hay: string, needle: string)
    ensures Contains(hay, needle) <==> exists k :: OccursAt(hay, needle, k)
    decreases |hay|
  {
    assert OccursAt(hay, needle, 0) <==> needle <= hay;
    if |hay| > 0 {
      ContainsAtOffset(hay[1..], needle);
      forall k | OccursAt(hay[1..], needle, k)
        ensures OccursAt(hay, needle, k + 1)
      {
        assert hay[k + 1..k + 1 + |needle|] == hay[1..][k..k + |needle|];
      }
      forall k | 0 < k && OccursAt(hay, needle, k)
        ensures OccursAt(hay[1..], needle, k - 1)
      {
        assert hay[1..][k - 1..k - 1 + |needle|] == hay[k..k + |needle|];
      }
    } else {
      forall k | OccursAt(hay, needle, k) ensures k == 0 { }
    }
  }

  /** Every string contains itself, so an exact match is also a substring match. */
  lemma ContainsSelf(s: string)
    ensures Contains(s, s)
  {
  }

  /** `s.endsWith(c)` for a one-character suffix. */
  predicate EndsWith(s: string, c: char) {
    |s| > 0 && s[|s| - 1] == c
  }

  // ---------------------------------------------------------------------
  // split on one character, and its inverse
  // ---------------------------------------------------------------------

  /** `s.split(sep)` for a one-character separator: the maximal separator-free
      pieces between separators, always at least one (`"".split(",")` is `[""]`). */
  function Split(s: string, sep: char): (r: seq<string>)
    ensures |r| >= 1
    ensures forall i :: 0 <= i < |r| ==> sep !in r[i]
    decreases |s|
  {
    if |s| == 0 then [""]
    else
      var rest := Split(s[1..], sep);
      if s[0] == sep then [""] + rest
      else [[s[0]] + rest[0]] + rest[1..]
  }

  /** `pieces.join(sep)`. */
  function Join(pieces: seq<string>, sep: char): string
    requires |pieces| >= 1
    decreases |pieces|
  {
    if |pieces| == 1 then pieces[0] else pieces[0] + [sep] + Join(pieces[1..], sep)
  }

  /** Joining the pieces of a split gives back the original string. */
  lemma {:induction false} JoinSplit(s: string, sep: char)
    ensures Join(Split(s, sep), sep) == s
    decreases |s|
  {
    if |s| > 0 {
      var rest := Split(s[1..], sep);
      JoinSplit(s[1..], sep);
      if s[0] != sep {
        var r := [[s[0]] + rest[0]] + rest[1..];
        assert r[1..] == rest[1..];
        if |rest| == 1 {
          assert Join(r, sep) == [s[0]] + rest[0];
        } else {
          assert Join(rest, sep) == rest[0] + [sep] + Join(rest[1..], sep);
          assert Join(r, sep) == [s[0]] + rest[0] + [sep] + Join(rest[1..], sep);
        }
        assert s == [s[0]] + s[1..];
      } else {
        var r := [""] + rest;
        assert r[1..] == rest;
        assert s == [s[0]] + s[1..];
      }
    }
  }

  /** A separator-free prefix glues onto the first piece of the split. */
  lemma {:induction false} SplitFreePrefix(a: string, t: string, sep: char)
    requires sep !in a
    ensures Split(a + t, sep) == [a + Split(t, sep)[0]] + Split(t, sep)[1..]
    decreases |a|
  {
    if |a| > 0 {
      assert (a + t)[1..] == a[1..] + t;
      assert sep !in a[1..] by {
        forall k | 0 <= k < |a[1..]| ensures a[1..][k] != sep {
          assert a[1..][k] == a[k + 1];
        }
      }
      SplitFreePrefix(a[1..], t, sep);
      assert [a[0]] + (a[1..] + Split(t, sep)[0]) == a + Split(t, sep)[0];
    } else {
      var rest := Split(t, sep);
      assert a + t == t;
      assert a + rest[0] == rest[0];
      assert [rest[0]] + rest[1..] == rest;
    }
  }

  /** Splitting a join of separator-free pieces gives back the pieces. */
  lemma {:induction false} SplitJoin(pieces: seq<string>, sep: char)
    requires |pieces| >= 1
    requires forall i :: 0 <= i < |pieces| ==> sep !in pieces[i]
    ensures Split(Join(pieces, sep), sep) == pieces
    decreases |pieces|
  {
    if |pieces| == 1 {
      SplitFreePrefix(pieces[0], "", sep);
      assert pieces[0] + "" == pieces[0];
    } else {
      var tail := Join(pieces[1..], sep);
      SplitJoin(pieces[1..], sep);
      assert Join(pieces, sep) == pieces[0] + ([sep] + tail);
      SplitFreePrefix(pieces[0], [sep] + tail, sep);
      assert ([sep] + tail)[1..] == tail;
      assert Split([sep] + tail, sep) == [""] + pieces[1..];
      assert pieces[0] + "" == pieces[0];
      assert pieces == [pieces[0]] + pieces[1..];
    }
  }

  /** Appending one more (empty) piece appends a trailing separator. */
  lemma {:induction false} JoinAppendEmpty(pieces: seq<string>, sep: char)
    requires |pieces| >= 1
    ensures Join(pieces + [""], sep) == Join(pieces, sep) + [sep]
    decreases |pieces|
  {
    if |pieces| == 1 {
      assert (pieces + [""])[1..] == [""];
    } else {
      assert (pieces + [""])[1..] == pieces[1..] + [""];
      JoinAppendEmpty(pieces[1..], sep);
    }
  }

  // ---------------------------------------------------------------------
  // trim
  // ---------------------------------------------------------------------

  /** The characters `String.prototype.trim` removes: the WhiteSpace and
      LineTerminator code points of section 12.2 and 12.3 of ECMA-262. */
  predicate IsWhitespace(c: char) {
    var n := c as int;
    n == 0x09 || n == 0x0A || n == 0x0B || n == 0x0C || n == 0x0D ||
    n == 0x20 || n == 0xA0 || n == 0x1680 || (0x2000 <= n <= 0x200A) ||
    n == 0x2028 || n == 0x2029 || n == 0x202F || n == 0x205F ||
    n == 0x3000 || n == 0xFEFF
  }

  /** Already trimmed: no whitespace at either end. */
  predicate IsTrimmed(s: string) {
    |s| == 0 || (!IsWhitespace(s[0]) && !IsWhitespace(s[|s| - 1]))
  }

  /** Drops the leading whitespace: the result is a suffix of `s`. */
  function TrimStart(s: string): (r: string)
    ensures |r| <= |s| && r == s[|s| - |r|..]
    ensures forall k :: 0 <= k < |s| - |r| ==> IsWhitespace(s[k])
    ensures |r| > 0 ==> !IsWhitespace(r[0])
    decreases |s|
  {
    if |s| > 0 && IsWhitespace(s[0]) then TrimStart(s[1..]) else s
  }

  /** Drops the trailing whitespace: the result is a prefix of `s`. */
  function TrimEnd(s: string): (r: string)
    ensures r <= s
    ensures forall k :: |r| <= k < |s| ==> IsWhitespace(s[k])
    ensures |r| > 0 ==> !IsWhitespace(r[|r| - 1])
    decreases |s|
  {
    if |s| > 0 && IsWhitespace(s[|s| - 1]) then TrimEnd(s[..|s| - 1]) else s
  }

  /** `r` is `s` with a whitespace-only prefix of length `i` and a
      whitespace-only suffix starting at `j` cut off. */
  ghost predicate IsStrippedBlock(s: string, r: string, i: int, j: int) {
    0 <= i <= j <= |s| && r == s[i..j] &&
    (forall k :: 0 <= k < i ==> IsWhitespace(s[k])) &&
    (forall k :: j <= k < |s| ==> IsWhitespace(s[k]))
  }

  /** `s.trim()`: the result is `s` with its leading and trailing whitespace
      cut off, is itself trimmed, and is empty exactly when `s` is all
      whitespace. */
  function Trim(s: string): (r: string)
    ensures exists i, j :: IsStrippedBlock(s, r, i, j)
    ensures IsTrimmed(r)
    ensures |r| <= |s|
    ensures r == "" <==> forall k :: 0 <= k < |s| ==> IsWhitespace(s[k])
  {
    var t := TrimStart(s);
    var r := TrimEnd(t);
    assert |r| > 0 ==> r[0] == t[0];
    assert r == "" ==> t == "";
    StripsBothEnds(s, t, r);
    r
  }

  /** Trimming the start and then the end cuts a whitespace-only block off
      each side. */
  lemma StripsBothEnds(s: string, t: string, r: string)
    requires |t| <= |s| && t == s[|s| - |t|..]
    requires forall k :: 0 <= k < |s| - |t| ==> IsWhitespace(s[k])
    requires r <= t
    requires forall k :: |r| <= k < |t| ==> IsWhitespace(t[k])
    ensures IsStrippedBlock(s, r, |s| - |t|, |s| - |t| + |r|)
  {
    var i := |s| - |t|;
    assert r == s[i..i + |r|];
    forall k | i + |r| <= k < |s| ensures IsWhitespace(s[k]) {
      assert s[k] == t[k - i];
    }
  }

  /** Trimming introduces no character that was not there. */
  lemma TrimOmitsAbsent(s: string, c: char)
    requires c !in s
    ensures c !in Trim(s)
  {
    var t := TrimStart(s);
    var r := Trim(s);
    forall k | 0 <= k < |r| ensures r[k] != c {
      assert r[k] == t[k] == s[|s| - |t| + k];
    }
  }

  /** Trimming leaves a trimmed string alone. */
  lemma TrimTrimmed(s: string)
    requires IsTrimmed(s)
    ensures Trim(s) == s
  {
  }
}
