/**
 The JavaScript string built-ins the feed relies on, over Dafny strings
 (sequences of Unicode scalar values):
 - `Trim`, String.prototype.trim;
 - `Utf16Length`, the `length` property, which counts UTF-16 code units;
 - `Split` and `Join`, String.prototype.split and Array.prototype.join with a
   one-character separator;
 - `ToUpperAscii`, String.prototype.toUpperCase restricted to ASCII letters.
 */
module JsString {

  /** The code points String.prototype.trim strips: the WhiteSpace and
      LineTerminator productions of ECMA-262 (sections 12.2 and 12.3). */
  predicate IsTrimmable(c: char) {
    || c == '\t' || c == '\n' || c == '\U{000B}' || c == '\U{000C}' || c == '\r'
    || c == ' ' || c == '\U{00A0}' || c == '\U{1680}'
    || ('\U{2000}' <= c <= '\U{200A}')
    || c == '\U{2028}' || c == '\U{2029}' || c == '\U{202F}' || c == '\U{205F}'
    || c == '\U{3000}' || c == '\U{FEFF}'
  }

  predicate AllTrimmable(s: string) {
    forall i :: 0 <= i < |s| ==> IsTrimmable(s[i])
  }

  /** A string trim leaves alone: empty, or starting and ending with a
      character that is not white space. */
  predicate IsTrimmed(s: string) {
    s == [] || (!IsTrimmable(s[0]) && !IsTrimmable(s[|s| - 1]))
  }

  /** Number of white-space characters at the front of `s`. */
  function LeadingCount(s: string): (n: nat)
    ensures n <= |s|
    ensures forall i :: 0 <= i < n ==> IsTrimmable(s[i])
    ensures n < |s| ==> !IsTrimmable(s[n])
  {
    if |s| == 0 || !IsTrimmable(s[0]) then 0 else 1 + LeadingCount(s[1..])
  }

  /** Number of white-space characters at the back of `s`. */
  function TrailingCount(s: string): (n: nat)
    ensures n <= |s|
    ensures forall i :: |s| - n <= i < |s| ==> IsTrimmable(s[i])
    ensures n < |s| ==> !IsTrimmable(s[|s| - n - 1])
  {
    if |s| == 0 || !IsTrimmable(s[|s| - 1]) then 0 else 1 + TrailingCount(s[..|s| - 1])
  }

  /** String.prototype.trim: the result is the infix of `s` left after
      removing the white space at both ends, and neither starts nor ends with
      white space. */
  function Trim(s: string): (r: string)
    ensures IsTrimmed(r)
    ensures LeadingCount(s) + |r| <= |s| && r == s[LeadingCount(s)..LeadingCount(s) + |r|]
    ensures AllTrimmable(s[..LeadingCount(s)]) && AllTrimmable(s[LeadingCount(s) + |r|..])
    ensures r == [] <==> AllTrimmable(s)
  {
    var n := LeadingCount(s);
    var t := TrailingCount(s);
    TrimEmpty(s, n);
    if n == |s| then
      assert s[..n] == s;
      ""
    else
      TrimNoOverlap(s, n, t);
      TrimInfix(s, n, t);
      TrimSurround(s, n, t);
      s[n..|s| - t]
  }

  /** What is left between two characters that are not white space is
      trimmed. */
  lemma TrimInfix(s: string, n: nat, t: nat)
    requires n + t < |s| && !IsTrimmable(s[n]) && !IsTrimmable(s[|s| - t - 1])
    ensures IsTrimmed(s[n..|s| - t])
  {
    var r := s[n..|s| - t];
    assert r[0] == s[n] && r[|r| - 1] == s[|s| - t - 1];
  }

  /** Unless the string is all white space, the white space at its front and
      at its back do not overlap. */
  lemma TrimNoOverlap(s: string, n: nat, t: nat)
    requires n == LeadingCount(s) && t == TrailingCount(s) && n < |s|
    ensures n + t < |s| && !IsTrimmable(s[n]) && !IsTrimmable(s[|s| - t - 1])
  {
    var c := s[n];
    assert !IsTrimmable(c);
  }

  /** Both ends removed are white space. */
  lemma TrimSurround(s: string, n: nat, t: nat)
    requires n == LeadingCount(s) && t == TrailingCount(s) && n < |s|
    ensures AllTrimmable(s[..n]) && AllTrimmable(s[|s| - t..])
  {
    var front := s[..n];
    var back := s[|s| - t..];
    forall i | 0 <= i < |front| ensures IsTrimmable(front[i]) {
      assert front[i] == s[i];
    }
    forall i | 0 <= i < |back| ensures IsTrimmable(back[i]) {
      assert back[i] == s[|s| - t + i];
    }
  }

  /** Nothing is left exactly when every character is white space. */
  lemma TrimEmpty(s: string, n: nat)
    requires n == LeadingCount(s)
    ensures n == |s| <==> AllTrimmable(s)
  {
    if n < |s| {
      assert !IsTrimmable(s[n]);
    }
  }

  /** Trim is determined by its contract: whatever white space surrounds a
      trimmed string, trim returns exactly that string. */
  lemma {:induction false} TrimUnique(p: string, m: string, q: string)
    requires AllTrimmable(p) && AllTrimmable(q) && IsTrimmed(m)
    ensures Trim(p + m + q) == m
  {
    var s := p + m + q;
    if m == [] {
      assert AllTrimmable(s) by {
        forall i | 0 <= i < |s| ensures IsTrimmable(s[i]) {
          if i < |p| { assert s[i] == p[i]; } else { assert s[i] == q[i - |p|]; }
        }
      }
    } else {
      var n := LeadingCount(s);
      assert forall i :: 0 <= i < |p| ==> s[i] == p[i];
      assert s[|p|] == m[0];
      assert n == |p|;
      var t := TrailingCount(s);
      var k := |p| + |m|;
      assert forall i :: k <= i < |s| ==> s[i] == q[i - k];
      assert s[k - 1] == m[|m| - 1];
      assert t == |q|;
      assert s[n..|s| - t] == m;
    }
  }

  /** Trimming twice is trimming once. */
  lemma TrimIdempotent(s: string)
    ensures Trim(Trim(s)) == Trim(s)
  {
    var m := Trim(s);
    assert [] + m + [] == m;
    TrimUnique([], m, []);
  }

  /** The `length` of a JavaScript string: characters outside the Basic
      Multilingual Plane take two UTF-16 code units, all others one. */
  function Utf16Length(s: string): (n: nat)
    ensures |s| <= n <= 2 * |s|
    ensures n == |s| <==> forall i :: 0 <= i < |s| ==> s[i] <= '\U{FFFF}'
    ensures n == 2 * |s| <==> forall i :: 0 <= i < |s| ==> s[i] > '\U{FFFF}'
  {
    if |s| == 0 then 0
    else (if s[0] <= '\U{FFFF}' then 1 else 2) + Utf16Length(s[1..])
  }

  /** The length of a one-character string is that character's code-unit
      width, and lengths add up over concatenation: together these fix the
      length of every string. */
  lemma {:induction false} Utf16LengthConcat(a: string, b: string)
    ensures |a| == 1 ==> Utf16Length(a) == if a[0] <= '\U{FFFF}' then 1 else 2
    ensures Utf16Length(a + b) == Utf16Length(a) + Utf16Length(b)
  {
    if |a| > 0 {
      Utf16LengthConcat(a[1..], b);
      assert (a + b)[1..] == a[1..] + b;
    } else {
      assert a + b == b;
    }
  }

  /** n copies of one character take n times its code-unit width. */
  lemma {:induction false} Utf16LengthRepeated(n: nat, c: char)
    ensures Utf16Length(seq(n, _ => c)) == n * (if c <= '\U{FFFF}' then 1 else 2)
  {
    if n > 0 {
      var text: string := seq(n, _ => c);
      assert text[0] == c && text[1..] == seq(n - 1, _ => c);
      Utf16LengthRepeated(n - 1, c);
    }
  }

  /** Array.prototype.join with a one-character separator. */
  function Join(pieces: seq<string>, sep: char): string {
    if |pieces| == 0 then ""
    else if |pieces| == 1 then pieces[0]
    else pieces[0] + [sep] + Join(pieces[1..], sep)
  }

  /** String.prototype.split with a one-character separator: the maximal
      separator-free pieces between separators, empty ones included; the
      empty string splits into one empty piece. */
  function Split(s: string, sep: char): (pieces: seq<string>)
    ensures |pieces| >= 1
    ensures forall i :: 0 <= i < |pieces| ==> sep !in pieces[i]
  {
    if |s| == 0 then [""]
    else
      var rest := Split(s[1..], sep);
      if s[0] == sep then [""] + rest
      else [[s[0]] + rest[0]] + rest[1..]
  }

  /** Joining the pieces of a split gives back the string. */
  lemma {:induction false} JoinSplit(s: string, sep: char)
    ensures Join(Split(s, sep), sep) == s
  {
    if |s| > 0 {
      var rest := Split(s[1..], sep);
      JoinSplit(s[1..], sep);
      if s[0] == sep {
        assert s == [sep] + s[1..];
      } else {
        assert rest == [rest[0]] + rest[1..];
        if |rest| > 1 {
          assert rest[1..][1..] == rest[2..];
          assert Join(rest, sep) == rest[0] + [sep] + Join(rest[1..], sep);
          assert s == [s[0]] + s[1..];
        } else {
          assert s == [s[0]] + s[1..];
        }
      }
    }
  }

  /** A separator-free prefix extends the first piece. */
  lemma {:induction false} SplitPrefix(p: string, t: string, sep: char)
    requires sep !in p
    ensures Split(p + t, sep) == [p + Split(t, sep)[0]] + Split(t, sep)[1..]
  {
    if |p| > 0 {
      SplitPrefix(p[1..], t, sep);
      assert (p + t)[1..] == p[1..] + t;
      assert [p[0]] + (p[1..] + Split(t, sep)[0]) == p + Split(t, sep)[0];
    } else {
      assert p + t == t;
      assert p + Split(t, sep)[0] == Split(t, sep)[0];
      assert Split(t, sep) == [Split(t, sep)[0]] + Split(t, sep)[1..];
    }
  }

  /** Splitting a join of separator-free pieces gives back the pieces. */
  lemma {:induction false} SplitJoin(pieces: seq<string>, sep: char)
    requires |pieces| >= 1
    requires forall i :: 0 <= i < |pieces| ==> sep !in pieces[i]
    ensures Split(Join(pieces, sep), sep) == pieces
  {
    var p := pieces[0];
    if |pieces| == 1 {
      SplitPrefix(p, "", sep);
      assert p + "" == p;
    } else {
      var t := Join(pieces[1..], sep);
      SplitJoin(pieces[1..], sep);
      SplitPrefix(p, [sep] + t, sep);
      assert p + [sep] + t == p + ([sep] + t);
      assert ([sep] + t)[1..] == t;
      assert Split([sep] + t, sep) == [""] + pieces[1..];
      assert p + "" == p;
      assert Join(pieces, sep) == p + [sep] + t;
      assert pieces == [p] + pieces[1..];
    }
  }

  /** toUpperCase on one character, for the ASCII letters only. */
  function UpperAscii(c: char): (u: char)
    ensures 'a' <= c <= 'z' ==> 'A' <= u <= 'Z' && u as int == c as int - 32
    ensures !('a' <= c <= 'z') ==> u == c
  {
    if 'a' <= c <= 'z' then (c as int - 32) as char else c
  }

  function ToUpperAscii(s: string): (r: string)
    ensures |r| == |s|
    ensures forall i :: 0 <= i < |s| ==> r[i] == UpperAscii(s[i])
  {
    if |s| == 0 then "" else [UpperAscii(s[0])] + ToUpperAscii(s[1..])
  }
}
