/**
 * The Python string built-ins the controller relies on: `str.lower`,
 * `str.strip`, `str.split(sep)`, `str.split()`, `str.startswith` and the
 * substring test `k in s`. Strings are sequences of Unicode scalar values,
 * as Python's `str` is.
 */
module PyStr {

  /** Python's `None`, or a present value. */
  datatype Option<+T> = None | Some(value: T)

  /** `str.isspace()` for one character: the code points CPython strips and splits on. */
  predicate IsSpace(c: char) {
    var n := c as int;
    (9 <= n <= 13) || (28 <= n <= 32) || n == 0x85 || n == 0xA0 || n == 0x1680
    || (0x2000 <= n <= 0x200A) || n == 0x2028 || n == 0x2029 || n == 0x202F
    || n == 0x205F || n == 0x3000
  }

  predicate NoSpace(s: string) {
    forall i :: 0 <= i < |s| ==> !IsSpace(s[i])
  }

  predicate AllSpace(s: string) {
    forall i :: 0 <= i < |s| ==> IsSpace(s[i])
  }

  predicate IsUpperAscii(c: char) {
    'A' <= c <= 'Z'
  }

  function LowerChar(c: char): char {
    if IsUpperAscii(c) then (c as int + 32) as char else c
  }

  /** `str.lower()`: every upper-case ASCII letter becomes its lower-case form. */
  function Lower(s: string): (r: string)
    ensures |r| == |s|
    ensures forall i :: 0 <= i < |r| ==> !IsUpperAscii(r[i])
    ensures forall i :: 0 <= i < |r| && IsUpperAscii(s[i]) ==> r[i] as int == s[i] as int + 32
    ensures forall i :: 0 <= i < |r| ==> !IsUpperAscii(s[i]) ==> r[i] == s[i]
    ensures forall i :: 0 <= i < |r| ==> IsSpace(r[i]) == IsSpace(s[i])
  {
    seq(|s|, i requires 0 <= i < |s| => LowerChar(s[i]))
  }

  /** Lower-casing twice is lower-casing once. */
  lemma LowerIdempotent(s: string)
    ensures Lower(Lower(s)) == Lower(s)
  {
  }

  /** `k` occurs in `s` starting at index `i`. */
  predicate OccursAt(s: string, k: string, i: int) {
    0 <= i && i + |k| <= |s| && s[i..i + |k|] == k
  }

  /** `s.startswith(p)`. */
  predicate StartsWith(s: string, p: string) {
    |p| <= |s| && s[..|p|] == p
  }

  /** Python's substring test `k in s`. */
  function Contains(s: string, k: string): (r: bool)
    ensures r ==> |k| <= |s|
    decreases |s|
  {
    StartsWith(s, k) || (|s| > 0 && Contains(s[1..], k))
  }

  /** The substring test agrees with "occurs at some index". */
  lemma {:induction false} ContainsIffOccurs(s: string, k: string)
    ensures Contains(s, k) <==> exists i :: OccursAt(s, k, i)
    decreases |s|
  {
    if StartsWith(s, k) {
      assert OccursAt(s, k, 0);
    } else if |s| > 0 {
      ContainsIffOccurs(s[1..], k);
      if Contains(s[1..], k) {
        var i :| OccursAt(s[1..], k, i);
        assert s[1..][i..i + |k|] == s[i + 1..i + 1 + |k|];
        assert OccursAt(s, k, i + 1);
      } else {
        forall i | OccursAt(s, k, i) && i > 0 ensures OccursAt(s[1..], k, i - 1) {
          assert s[1..][i - 1..i - 1 + |k|] == s[i..i + |k|];
        }
      }
    }
  }

  /** Drops the leading whitespace. */
  function TrimStart(s: string): (r: string)
    ensures |r| <= |s| && r == s[|s| - |r|..]
    ensures forall j :: 0 <= j < |s| - |r| ==> IsSpace(s[j])
    ensures r != [] ==> !IsSpace(r[0])
    decreases |s|
  {
    if |s| > 0 && IsSpace(s[0]) then TrimStart(s[1..]) else s
  }

  /** Drops the trailing whitespace. */
  function TrimEnd(s: string): (r: string)
    ensures |r| <= |s| && r == s[..|r|]
    ensures forall j :: |r| <= j < |s| ==> IsSpace(s[j])
    ensures r != [] ==> !IsSpace(r[|r| - 1])
    decreases |s|
  {
    if |s| > 0 && IsSpace(s[|s| - 1]) then TrimEnd(s[..|s| - 1]) else s
  }

  /**
   * `str.strip()`: the text without the whitespace at both ends. It starts
   * and ends with a non-space character, or is empty, and it is empty
   * exactly when `s` is all whitespace.
   */
  function Strip(s: string): (r: string)
    ensures |r| <= |s|
    ensures r != [] ==> !IsSpace(r[0]) && !IsSpace(r[|r| - 1])
    ensures r == [] <==> AllSpace(s)
  {
    var t := TrimStart(s);
    var r := TrimEnd(t);
    StripSlice(s, t, r);
    r
  }

  /** What `str.strip()` keeps is one contiguous slice of `s`, and only whitespace lies outside it. */
  lemma StripKeepsMiddle(s: string)
    ensures exists i :: OccursAt(s, Strip(s), i) && (forall j :: 0 <= j < i ==> IsSpace(s[j]))
                                                 && (forall j :: i + |Strip(s)| <= j < |s| ==> IsSpace(s[j]))
  {
    var t := TrimStart(s);
    StripSlice(s, t, TrimEnd(t));
    assert OccursAt(s, Strip(s), |s| - |t|);
  }

  lemma StripSlice(s: string, t: string, r: string)
    requires |t| <= |s| && t == s[|s| - |t|..] && forall j :: 0 <= j < |s| - |t| ==> IsSpace(s[j])
    requires |r| <= |t| && r == t[..|r|] && forall j :: |r| <= j < |t| ==> IsSpace(t[j])
    requires r != [] ==> !IsSpace(r[0])
    ensures OccursAt(s, r, |s| - |t|)
    ensures forall j :: |s| - |t| + |r| <= j < |s| ==> IsSpace(s[j])
    ensures r == [] <==> AllSpace(s)
  {
    var i := |s| - |t|;
    assert s[i..i + |r|] == r;
    forall j | i + |r| <= j < |s| ensures IsSpace(s[j]) {
      assert s[j] == t[j - i];
    }
    if r != [] {
      assert s[i] == r[0];
    }
  }

  /** Stripping twice is stripping once. */
  lemma StripIdempotent(s: string)
    ensures Strip(Strip(s)) == Strip(s)
  {
    var r := Strip(s);
    if r != [] {
      assert TrimStart(r) == r;
      assert TrimEnd(r) == r;
    }
  }

  /** Number of occurrences of `c` in `s`. */
  function Count(s: string, c: char): (n: nat)
    ensures n == 0 <==> c !in s
    ensures n <= |s|
  {
    if |s| == 0 then 0
    else (if s[0] == c then 1 else 0) + Count(s[1..], c)
  }

  /** `s.split(sep)` for a one-character separator: one more piece than separators, none containing it. */
  function Split(s: string, sep: char): (parts: seq<string>)
    ensures |parts| == Count(s, sep) + 1
    ensures forall i :: 0 <= i < |parts| ==> sep !in parts[i]
    decreases |s|
  {
    if |s| == 0 then [""]
    else
      var rest := Split(s[1..], sep);
      if s[0] == sep then [""] + rest
      else [[s[0]] + rest[0]] + rest[1..]
  }

  /** `sep.join(parts)`. */
  function Join(parts: seq<string>, sep: char): string
    requires |parts| >= 1
    decreases |parts|
  {
    if |parts| == 1 then parts[0] else parts[0] + [sep] + Join(parts[1..], sep)
  }

  /** Joining the pieces of a split with the separator gives back the text. */
  lemma {:induction false} JoinSplit(s: string, sep: char)
    ensures Join(Split(s, sep), sep) == s
    decreases |s|
  {
    if |s| > 0 {
      var rest := Split(s[1..], sep);
      JoinSplit(s[1..], sep);
      assert s == [s[0]] + s[1..];
      if s[0] == sep {
        var parts := [""] + rest;
        assert parts[1..] == rest;
        assert Join(parts, sep) == "" + [sep] + Join(rest, sep);
      } else {
        var parts := [[s[0]] + rest[0]] + rest[1..];
        if |rest| > 1 {
          assert parts[1..] == rest[1..];
          assert Join(rest, sep) == rest[0] + [sep] + Join(rest[1..], sep);
          assert Join(parts, sep) == ([s[0]] + rest[0]) + [sep] + Join(rest[1..], sep);
        } else {
          assert Join(parts, sep) == [s[0]] + rest[0];
        }
      }
    }
  }

  /** A piece free of the separator splits off whole at the front. */
  lemma {:induction false} SplitAfterPiece(p: string, sep: char, t: string)
    requires sep !in p
    ensures Split(p + [sep] + t, sep) == [p] + Split(t, sep)
    decreases |p|
  {
    var s := p + [sep] + t;
    if |p| == 0 {
      assert s[1..] == t;
    } else {
      assert s[1..] == p[1..] + [sep] + t;
      SplitAfterPiece(p[1..], sep, t);
      assert [p[0]] + p[1..] == p;
    }
  }

  /** A text free of the separator is a single piece. */
  lemma {:induction false} SplitWithoutSeparator(s: string, sep: char)
    requires sep !in s
    ensures Split(s, sep) == [s]
  {
    JoinSplit(s, sep);
  }

  /** Splitting the join of separator-free pieces gives back the pieces. */
  lemma {:induction false} SplitJoin(parts: seq<string>, sep: char)
    requires |parts| >= 1
    requires forall i :: 0 <= i < |parts| ==> sep !in parts[i]
    ensures Split(Join(parts, sep), sep) == parts
    decreases |parts|
  {
    if |parts| == 1 {
      SplitWithoutSeparator(parts[0], sep);
    } else {
      SplitJoin(parts[1..], sep);
      SplitAfterPiece(parts[0], sep, Join(parts[1..], sep));
    }
  }

  /** The concatenation of all the pieces. */
  function Concat(ts: seq<string>): string {
    if ts == [] then [] else ts[0] + Concat(ts[1..])
  }

  /** The characters of `s` that are not whitespace, in order. */
  function RemoveSpaces(s: string): string {
    if s == [] then [] else (if IsSpace(s[0]) then [] else [s[0]]) + RemoveSpaces(s[1..])
  }

  /**
   * `s.split()`: the maximal runs of non-whitespace characters. Every word is
   * non-empty and free of whitespace, and together they hold exactly the
   * non-whitespace characters of `s`, in order.
   */
  function SplitWhitespace(s: string): (words: seq<string>)
    ensures forall i :: 0 <= i < |words| ==> words[i] != [] && NoSpace(words[i])
    ensures s != [] && !IsSpace(s[0]) ==> words != [] && words[0][0] == s[0]
    decreases |s|
  {
    if s == [] then []
    else
      var rest := SplitWhitespace(s[1..]);
      if IsSpace(s[0]) then rest
      else if |s| > 1 && !IsSpace(s[1]) then [[s[0]] + rest[0]] + rest[1..]
      else [[s[0]]] + rest
  }

  /** The words hold exactly the non-whitespace characters of the text, in order. */
  lemma {:induction false} SplitWhitespaceKeepsText(s: string)
    ensures Concat(SplitWhitespace(s)) == RemoveSpaces(s)
    decreases |s|
  {
    if s != [] {
      var rest := SplitWhitespace(s[1..]);
      SplitWhitespaceKeepsText(s[1..]);
      if !IsSpace(s[0]) {
        if |s| > 1 && !IsSpace(s[1]) {
          var words := [[s[0]] + rest[0]] + rest[1..];
          assert words[1..] == rest[1..];
          assert Concat(rest) == rest[0] + Concat(rest[1..]);
        } else {
          assert ([[s[0]]] + rest)[1..] == rest;
        }
      }
    }
  }

  /** `' '.join(words)`. */
  function JoinWords(words: seq<string>): string {
    if words == [] then [] else if |words| == 1 then words[0] else words[0] + " " + JoinWords(words[1..])
  }

  /** Leading whitespace contributes no word. */
  lemma {:induction false} SplitWhitespaceAfterSpace(sp: string, t: string)
    requires AllSpace(sp)
    ensures SplitWhitespace(sp + t) == SplitWhitespace(t)
    decreases |sp|
  {
    var s := sp + t;
    if sp == [] {
      assert s == t;
    } else {
      assert IsSpace(s[0]);
      assert s[1..] == sp[1..] + t;
      SplitWhitespaceAfterSpace(sp[1..], t);
    }
  }

  /** A space-free word followed by whitespace, or by nothing, splits off whole at the front. */
  lemma {:induction false} SplitWhitespaceAfterWord(w: string, t: string)
    requires w != [] && NoSpace(w)
    requires t == [] || IsSpace(t[0])
    ensures SplitWhitespace(w + t) == [w] + SplitWhitespace(t)
    decreases |w|
  {
    var s := w + t;
    assert s[0] == w[0] && !IsSpace(s[0]);
    if |w| == 1 {
      assert s[1..] == t;
      assert [s[0]] == w;
    } else {
      assert s[1] == w[1] && !IsSpace(s[1]);
      assert s[1..] == w[1..] + t;
      SplitWhitespaceAfterWord(w[1..], t);
      assert [w[0]] + w[1..] == w;
    }
  }

  /** Splitting the space-join of non-empty, space-free words gives back the words. */
  lemma {:induction false} SplitWhitespaceJoinWords(words: seq<string>)
    requires forall i :: 0 <= i < |words| ==> words[i] != [] && NoSpace(words[i])
    ensures SplitWhitespace(JoinWords(words)) == words
    decreases |words|
  {
    if |words| == 1 {
      SplitWhitespaceAfterWord(words[0], []);
      assert words[0] + [] == words[0];
    } else if |words| > 1 {
      var tail := words[1..];
      var rest := JoinWords(tail);
      assert JoinWords(words) == words[0] + (" " + rest);
      forall i | 0 <= i < |tail| ensures tail[i] != [] && NoSpace(tail[i]) {
        assert tail[i] == words[i + 1];
      }
      SplitWhitespaceJoinWords(tail);
      SplitWhitespaceAfterSpace(" ", rest);
      assert IsSpace((" " + rest)[0]);
      SplitWhitespaceAfterWord(words[0], " " + rest);
      assert [words[0]] + tail == words;
    }
  }

  /**
   * The text `seps[0] + words[0] + seps[1] + ... + words[n-1] + seps[n]`:
   * the words with a separator before, between and after them.
   */
  function Interleave(words: seq<string>, seps: seq<string>): string
    requires |seps| == |words| + 1
    decreases |words|
  {
    if words == [] then seps[0] else seps[0] + words[0] + Interleave(words[1..], seps[1..])
  }

  /**
   * `split()` undoes any interleaving of non-empty, space-free words with
   * whitespace separators, provided the separators between two words are not
   * empty; the two ends may be empty. So each word of `split()` is a maximal
   * run of non-whitespace characters.
   */
  lemma {:induction false} SplitWhitespaceInterleave(words: seq<string>, seps: seq<string>)
    requires |seps| == |words| + 1
    requires forall i :: 0 <= i < |words| ==> words[i] != [] && NoSpace(words[i])
    requires forall i :: 0 <= i < |seps| ==> AllSpace(seps[i])
    requires forall i :: 0 < i < |words| ==> seps[i] != []
    ensures SplitWhitespace(Interleave(words, seps)) == words
    decreases |words|
  {
    if words == [] {
      SplitWhitespaceAfterSpace(seps[0], []);
      assert seps[0] + [] == seps[0];
    } else {
      var rest := Interleave(words[1..], seps[1..]);
      SplitWhitespaceInterleave(words[1..], seps[1..]);
      if |words| > 1 {
        assert rest == seps[1] + words[1] + Interleave(words[2..], seps[2..]);
        assert rest[0] == seps[1][0];
      } else {
        assert rest == seps[1];
      }
      assert AllSpace(seps[0]);
      SplitWhitespaceAfterWord(words[0], rest);
      SplitWhitespaceAfterSpace(seps[0], words[0] + rest);
      assert seps[0] + words[0] + rest == seps[0] + (words[0] + rest);
    }
  }
}
