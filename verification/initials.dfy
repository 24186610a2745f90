/**
 The avatar fallback of a tweet's author and of a follow suggestion: the name
 is split on single spaces, each piece contributes its first character (an
 empty piece contributes nothing, since `undefined` joins as ""), the first
 two characters are kept and upper-cased.
 */
module Initials {
  import opened JsString

  /** `piece[0]` joined with "": the first character, or nothing. */
  function Head(piece: string): (h: string)
    ensures |h| <= 1 && |h| <= |piece|
    ensures |piece| > 0 ==> h == [piece[0]]
  {
    if |piece| == 0 then "" else piece[..1]
  }

  /** `pieces.map((piece) => piece[0]).join("")` */
  function FirstChars(pieces: seq<string>): (r: string)
    ensures |r| <= |pieces|
    ensures (forall j :: 0 <= j < |pieces| ==> |pieces[j]| > 0) ==> |r| == |pieces|
    ensures |pieces| > 0 && |pieces[0]| > 0 ==> |r| > 0 && r[0] == pieces[0][0]
  {
    if |pieces| == 0 then "" else Head(pieces[0]) + FirstChars(pieces[1..])
  }

  /** The characters of `s` that begin a word: not a space, and first in `s`
      or right after a space. `atStart` says whether the character before
      `s` was a space (or there was none). */
  function WordStarts(s: string, atStart: bool): (r: string)
    ensures |r| <= |s|
    ensures forall i :: 0 <= i < |r| ==> r[i] in s && r[i] != ' '
  {
    if |s| == 0 then ""
    else (if atStart && s[0] != ' ' then [s[0]] else []) + WordStarts(s[1..], s[0] == ' ')
  }

  /** Taking the first character of every space-separated piece is the same
      as collecting the word starts; after dropping the first piece, the
      same holds with the first character of the string no longer a start. */
  lemma {:induction false} FirstCharsOfSplit(s: string)
    ensures FirstChars(Split(s, ' ')) == WordStarts(s, true)
    ensures FirstChars(Split(s, ' ')[1..]) == WordStarts(s, false)
  {
    if |s| > 0 {
      FirstCharsOfSplit(s[1..]);
      var rest := Split(s[1..], ' ');
      if s[0] == ' ' {
        assert Split(s, ' ') == [""] + rest;
        assert ([""] + rest)[1..] == rest;
      } else {
        var pieces := Split(s, ' ');
        assert pieces == [[s[0]] + rest[0]] + rest[1..];
        assert pieces[1..] == rest[1..];
        assert Head(pieces[0]) == [s[0]];
      }
    }
  }

  /** The fallback text under an author's or a suggestion's avatar: at most
      two characters, the upper-cased starts of the first words of `name`,
      in order. */
  function AvatarInitials(name: string): (r: string)
    ensures |r| <= 2
    ensures |r| == if |WordStarts(name, true)| < 2 then |WordStarts(name, true)| else 2
    ensures forall i :: 0 <= i < |r| ==> r[i] == UpperAscii(WordStarts(name, true)[i])
  {
    var joined := FirstChars(Split(name, ' '));
    FirstCharsOfSplit(name);
    var kept := if |joined| <= 2 then joined else joined[..2];
    assert forall i :: 0 <= i < |kept| ==> kept[i] == joined[i];
    ToUpperAscii(kept)
  }

  /** A name without any word yields an empty fallback. */
  lemma BlankNameNoInitials(name: string)
    requires forall i :: 0 <= i < |name| ==> name[i] == ' '
    ensures AvatarInitials(name) == ""
  {
  }

  /** One step of the scan. */
  lemma WordStartsCons(c: char, rest: string, atStart: bool)
    ensures WordStarts([c] + rest, atStart) == (if atStart && c != ' ' then [c] else []) + WordStarts(rest, c == ' ')
  {
    assert ([c] + rest)[1..] == rest;
  }

  /** Inside a word no character starts a word. */
  lemma {:induction false} WordStartsSkip(x: string, t: string)
    requires ' ' !in x
    ensures WordStarts(x + t, false) == WordStarts(t, false)
  {
    if |x| > 0 {
      assert (x + t)[1..] == x[1..] + t;
      WordStartsSkip(x[1..], t);
    } else {
      assert x + t == t;
    }
  }

  /** A name of two words, each starting with a letter, gives those two
      letters as word starts. */
  lemma TwoWordStarts(a: char, x: string, b: char, y: string)
    requires a != ' ' && b != ' ' && ' ' !in x && ' ' !in y
    ensures WordStarts([a] + (x + ([' '] + ([b] + y))), true) == [a, b]
  {
    var second := [b] + y;
    var gap := [' '] + second;
    WordStartsCons(a, x + gap, true);
    WordStartsSkip(x, gap);
    WordStartsCons(' ', second, false);
    WordStartsCons(b, y, true);
    WordStartsSkip(y, "");
    assert y + "" == y;
    assert [a] + ([] + ([b] + [])) == [a, b];
  }

  /** The current user's fallback, written out as "AI" in the page, is what
      the expression gives for the name "Ava Indigo" (spelt out here piece by
      piece: 'A', "va", a space, 'I', "ndigo"). */
  lemma CurrentUserInitials()
    ensures AvatarInitials(['A'] + ("va" + ([' '] + (['I'] + "ndigo")))) == "AI"
  {
    TwoWordInitials('A', "va", 'I', "ndigo");
  }

  /** A two-word name gives the capitals of the two words' first letters. */
  lemma TwoWordInitials(a: char, x: string, b: char, y: string)
    requires a != ' ' && b != ' ' && ' ' !in x && ' ' !in y
    ensures AvatarInitials([a] + (x + ([' '] + ([b] + y)))) == [UpperAscii(a), UpperAscii(b)]
  {
    TwoWordStarts(a, x, b, y);
  }

  /** Leading and doubled spaces make empty pieces, which add nothing:
      " a  b" gives the capitals of a and b. */
  lemma EmptyPiecesSkipped(a: char, b: char)
    requires a != ' ' && b != ' '
    ensures AvatarInitials([' ', a, ' ', ' ', b]) == [UpperAscii(a), UpperAscii(b)]
  {
    var w1 := [b];
    var w2 := [' '] + w1;
    var w3 := [' '] + w2;
    var w4 := [a] + w3;
    assert [' ', a, ' ', ' ', b] == [' '] + w4;
    WordStartsCons(' ', w4, true);
    WordStartsCons(a, w3, true);
    WordStartsCons(' ', w2, false);
    WordStartsCons(' ', w1, true);
    WordStartsCons(b, [], true);
    assert w1 == [b] + [];
    assert WordStarts([' ', a, ' ', ' ', b], true) == [a, b];
  }
}
