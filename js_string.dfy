/**
 * The JavaScript string operations the location code relies on:
 * `String.prototype.trim`, `toLowerCase`, `split` with a one-character
 * separator, and the `\d` character class.
 */
module JsString {

  /** The characters `trim` removes: ECMAScript WhiteSpace and LineTerminator. */
  predicate IsWhitespace(c: char)
  {
    || c == ' ' || '\t' <= c <= '\r' || c == '\U{A0}' || c == '\U{1680}'
    || '\U{2000}' <= c <= '\U{200A}' || c == '\U{2028}' || c == '\U{2029}'
    || c == '\U{202F}' || c == '\U{205F}' || c == '\U{3000}' || c == '\U{FEFF}'
  }

  predicate AllWhitespace(s: string)
  {
    forall i :: 0 <= i < |s| ==> IsWhitespace(s[i])
  }

  /** Neither end of `s` is whitespace. */
  predicate IsTrimmed(s: string)
  {
    s == [] || (!IsWhitespace(s[0]) && !IsWhitespace(s[|s| - 1]))
  }

  /** The index of the first non-whitespace character at or after `i`, or `|s|`. */
  function SkipSpaceForward(s: string, i: nat): (k: nat)
    requires i <= |s|
    ensures i <= k <= |s|
    ensures forall j :: i <= j < k ==> IsWhitespace(s[j])
    ensures k == |s| || !IsWhitespace(s[k])
    decreases |s| - i
  {
    if i < |s| && IsWhitespace(s[i]) then SkipSpaceForward(s, i + 1) else i
  }

  /** The end of `s[lo..hi]` once trailing whitespace is dropped. */
  function SkipSpaceBackward(s: string, lo: nat, hi: nat): (k: nat)
    requires lo <= hi <= |s|
    ensures lo <= k <= hi
    ensures forall j :: k <= j < hi ==> IsWhitespace(s[j])
    ensures k == lo || !IsWhitespace(s[k - 1])
    decreases hi
  {
    if lo < hi && IsWhitespace(s[hi - 1]) then SkipSpaceBackward(s, lo, hi - 1) else hi
  }

  /**
   * `s.trim()`: the slice of `s` left once leading and trailing whitespace
   * is removed; nothing else is removed.
   */
  function Trim(s: string): (r: string)
    ensures IsTrimmed(r)
    ensures var a := SkipSpaceForward(s, 0);
              && a + |r| <= |s| && r == s[a..a + |r|]
              && (forall i :: 0 <= i < a ==> IsWhitespace(s[i]))
              && (forall i :: a + |r| <= i < |s| ==> IsWhitespace(s[i]))
    ensures IsTrimmed(s) ==> r == s
  {
    var a := SkipSpaceForward(s, 0);
    s[a..SkipSpaceBackward(s, a, |s|)]
  }

  /** Everything `Trim` keeps comes from `s`. */
  lemma TrimChars(s: string, c: char)
    requires c in Trim(s)
    ensures c in s
  {
    var r := Trim(s);
    var a := SkipSpaceForward(s, 0);
    var i :| 0 <= i < |r| && r[i] == c;
    assert s[a + i] == c;
  }

  /** A character absent from `s` is absent from `Trim(s)`. */
  lemma TrimKeepsOut(s: string, c: char)
    requires c !in s
    ensures c !in Trim(s)
  {
    if c in Trim(s) {
      TrimChars(s, c);
    }
  }

  /** Whitespace around a trimmed string is exactly what `trim` removes. */
  lemma TrimPadded(pre: string, x: string, post: string)
    requires AllWhitespace(pre) && AllWhitespace(post) && IsTrimmed(x)
    ensures Trim(pre + x + post) == x
  {
    var s := pre + x + post;
    var r := Trim(s);
    var a := SkipSpaceForward(s, 0);
    if x == [] {
      assert forall i :: 0 <= i < |s| ==> IsWhitespace(s[i]) by {
        forall i | 0 <= i < |s| ensures IsWhitespace(s[i]) {
          if i < |pre| { assert s[i] == pre[i]; } else { assert s[i] == post[i - |pre|]; }
        }
      }
      assert a == |s|;
    } else {
      assert s[|pre|] == x[0];
      assert forall i :: 0 <= i < |pre| ==> IsWhitespace(s[i]) by {
        forall i | 0 <= i < |pre| ensures IsWhitespace(s[i]) { assert s[i] == pre[i]; }
      }
      assert a == |pre|;
      var e := |pre| + |x|;
      assert s[e - 1] == x[|x| - 1];
      assert forall i :: e <= i < |s| ==> IsWhitespace(s[i]) by {
        forall i | e <= i < |s| ensures IsWhitespace(s[i]) { assert s[i] == post[i - e]; }
      }
      assert a + |r| == e;
      assert s[|pre|..e] == x;
    }
  }

  function LowerChar(c: char): char
  {
    if 'A' <= c <= 'Z' then (c as int + 32) as char else c
  }

  /** `toLowerCase` restricted to ASCII letters. */
  function ToLower(s: string): (r: string)
    ensures |r| == |s|
  {
    if s == [] then [] else [LowerChar(s[0])] + ToLower(s[1..])
  }

  /** Lower-casing works character by character. */
  lemma {:induction false} ToLowerAt(s: string)
    ensures forall i :: 0 <= i < |s| ==> ToLower(s)[i] == LowerChar(s[i])
  {
    if s != [] {
      ToLowerAt(s[1..]);
    }
  }

  /** Lower-casing twice is lower-casing once. */
  lemma ToLowerIdempotent(s: string)
    ensures ToLower(ToLower(s)) == ToLower(s)
  {
    var l := ToLower(s);
    ToLowerAt(s);
    ToLowerAt(l);
    assert forall i :: 0 <= i < |l| ==> LowerChar(l[i]) == l[i];
  }

  /** Strings that differ only in ASCII letter case lower-case to the same string. */
  lemma ToLowerCaseBlind(s: string, t: string)
    requires |s| == |t|
    requires forall i :: 0 <= i < |s| ==> LowerChar(s[i]) == LowerChar(t[i])
    ensures ToLower(s) == ToLower(t)
  {
    ToLowerAt(s);
    ToLowerAt(t);
  }

  /** `s.indexOf(c, i)`, with `|s|` standing for -1: the first `c` at or after `i`. */
  function IndexOfFrom(s: string, c: char, i: nat): (j: nat)
    requires i <= |s|
    ensures i <= j <= |s|
    ensures j < |s| ==> s[j] == c
    ensures forall k :: i <= k < j ==> s[k] != c
    decreases |s| - i
  {
    if i == |s| || s[i] == c then i else IndexOfFrom(s, c, i + 1)
  }

  predicate IsDigit(c: char)
  {
    '0' <= c <= '9'
  }

  /** How many times `c` occurs in `s`. */
  function Occurrences(s: string, c: char): nat
  {
    if s == [] then 0 else (if s[0] == c then 1 else 0) + Occurrences(s[1..], c)
  }

  /** Reassembles split parts, putting `sep` between neighbours (`parts.join(sep)`). */
  function Join(parts: seq<string>, sep: char): string
    requires |parts| >= 1
  {
    if |parts| == 1 then parts[0] else parts[0] + [sep] + Join(parts[1..], sep)
  }

  /**
   * `s.split(sep)`: the maximal separator-free pieces of `s`, in order.
   * There is always one more piece than there are separators, so the
   * empty string splits into one empty piece.
   */
  function Split(s: string, sep: char): (parts: seq<string>)
    ensures |parts| == Occurrences(s, sep) + 1
    ensures forall i :: 0 <= i < |parts| ==> sep !in parts[i]
  {
    if s == [] then [[]]
    else
      var rest := Split(s[1..], sep);
      assert s == [s[0]] + s[1..];
      if s[0] == sep then [[]] + rest
      else [[s[0]] + rest[0]] + rest[1..]
  }

  /** The first piece is a prefix of the string. */
  lemma {:induction false} SplitFirstIsPrefix(s: string, sep: char)
    ensures Split(s, sep)[0] <= s
  {
    if s != [] {
      SplitFirstIsPrefix(s[1..], sep);
      assert s == [s[0]] + s[1..];
    }
  }

  /**
   * The first piece is the text before the first separator; when there is
   * a separator, the other pieces are the pieces of the text after it.
   */
  lemma SplitAtFirst(s: string, sep: char)
    ensures var j := IndexOfFrom(s, sep, 0);
            && Split(s, sep)[0] == s[..j]
            && (j == |s| <==> sep !in s)
            && (j == |s| ==> Split(s, sep) == [s])
            && (j < |s| ==> Split(s, sep) == [s[..j]] + Split(s[j + 1..], sep))
  {
    var j := IndexOfFrom(s, sep, 0);
    if j == |s| {
      assert s[..j] == s;
      SplitNoSeparator(s, sep);
    } else {
      assert s == s[..j] + [sep] + s[j + 1..];
      SplitAfterPrefix(s[..j], s[j + 1..], sep);
    }
  }

  /**
   * The first two pieces: the text before the first separator, and the
   * text from there to the next separator, which exists exactly when `s`
   * holds a separator.
   */
  lemma SplitFirstTwo(s: string, sep: char)
    ensures var j := IndexOfFrom(s, sep, 0);
            && Split(s, sep)[0] == s[..j]
            && (|Split(s, sep)| > 1 <==> sep in s)
            && (sep in s ==> var rest := s[j + 1..]; Split(s, sep)[1] == rest[..IndexOfFrom(rest, sep, 0)])
  {
    SplitAtFirst(s, sep);
    var j := IndexOfFrom(s, sep, 0);
    if j < |s| {
      SplitAtFirst(s[j + 1..], sep);
    }
  }

  /** Joining the pieces with the separator gives back the string. */
  lemma {:induction false} JoinSplit(s: string, sep: char)
    ensures Join(Split(s, sep), sep) == s
  {
    if s != [] {
      JoinSplit(s[1..], sep);
      var rest := Split(s[1..], sep);
      assert s == [s[0]] + s[1..];
      if s[0] == sep {
        assert ([[]] + rest)[1..] == rest;
      } else {
        var parts := [[s[0]] + rest[0]] + rest[1..];
        assert parts[1..] == rest[1..];
        if |rest| > 1 {
          assert Join(rest, sep) == rest[0] + [sep] + Join(rest[1..], sep);
        }
      }
    }
  }

  /** Splitting undoes joining when no part contains the separator. */
  lemma {:induction false} SplitJoin(parts: seq<string>, sep: char)
    requires |parts| >= 1
    requires forall i :: 0 <= i < |parts| ==> sep !in parts[i]
    ensures Split(Join(parts, sep), sep) == parts
  {
    if |parts| == 1 {
      SplitNoSeparator(parts[0], sep);
    } else {
      SplitJoin(parts[1..], sep);
      SplitAfterPrefix(parts[0], Join(parts[1..], sep), sep);
    }
  }

  /** A string without the separator is a single piece. */
  lemma {:induction false} SplitNoSeparator(s: string, sep: char)
    requires sep !in s
    ensures Split(s, sep) == [s]
  {
    if s != [] {
      SplitNoSeparator(s[1..], sep);
      assert s == [s[0]] + s[1..];
    }
  }

  /** A separator-free prefix followed by `sep` becomes the first piece. */
  lemma {:induction false} SplitAfterPrefix(p: string, rest: string, sep: char)
    requires sep !in p
    ensures Split(p + [sep] + rest, sep) == [p] + Split(rest, sep)
  {
    if p == [] {
      assert p + [sep] + rest == [sep] + rest;
      assert ([sep] + rest)[1..] == rest;
    } else {
      var s := p + [sep] + rest;
      SplitAfterPrefix(p[1..], rest, sep);
      assert s[1..] == p[1..] + [sep] + rest;
      var tail := Split(s[1..], sep);
      assert tail == [p[1..]] + Split(rest, sep);
      assert s[0] == p[0] && s[0] != sep;
      assert Split(s, sep) == [[p[0]] + tail[0]] + tail[1..];
      assert [p[0]] + p[1..] == p;
    }
  }
}
