/**
 * The avatar of `components/user-button.tsx`: nothing without a user, else
 * an avatar whose fallback text is the initials of the user's name.
 */
module UserButton {
  import opened Wrappers
  import opened Strings

  /** The session user as the button reads it. */
  datatype CurrentUser = CurrentUser(name: Option<string>, email: Option<string>, image: Option<string>)

  /** What the button renders. */
  datatype Rendered = Nothing | Avatar(initials: string)

  /** `name.split(' ')`: the pieces between single spaces, empty ones included. */
  function Split(s: string): (words: seq<string>)
    ensures |words| >= 1
    ensures forall w :: w in words ==> ' ' !in w
  {
    if s == [] then [""]
    else
      var rest := Split(s[1..]);
      if s[0] == ' ' then [""] + rest else [[s[0]] + rest[0]] + rest[1..]
  }

  /** `words.join(' ')`. */
  function Join(words: seq<string>): string
  {
    if |words| <= 1 then (if words == [] then "" else words[0])
    else words[0] + " " + Join(words[1..])
  }

  /** Splitting on spaces and joining with spaces gives the name back. */
  lemma {:induction false} JoinSplit(s: string)
    ensures Join(Split(s)) == s
  {
    if s != [] {
      JoinSplit(s[1..]);
      var rest := Split(s[1..]);
      if s[0] == ' ' {
        assert Split(s) == [""] + rest;
        assert Split(s)[1..] == rest;
        assert s == "" + " " + s[1..];
      } else {
        var w := [s[0]] + rest[0];
        assert Split(s) == [w] + rest[1..];
        if |rest| == 1 {
          assert Join(Split(s)) == w;
          assert s == [s[0]] + s[1..];
        } else {
          assert Split(s)[1..] == rest[1..];
          assert Join(Split(s)) == w + " " + Join(rest[1..]);
          assert Join(rest) == rest[0] + " " + Join(rest[1..]);
          assert s == [s[0]] + s[1..];
        }
      }
    }
  }

  /** `n[0]` joined into a string: the first character, or "" for an empty word (`undefined`). */
  function Head(w: string): (h: string)
    ensures |h| <= 1
    ensures w == "" ==> h == ""
    ensures w != "" ==> h == [w[0]]
  {
    if w == "" then "" else [w[0]]
  }

  /** `words.map(n => n[0]).join('')`. */
  function FirstChars(words: seq<string>): string
  {
    if words == [] then "" else Head(words[0]) + FirstChars(words[1..])
  }

  /**
   * An independent reading of the initials: every non-space character that
   * opens the string or follows a space, in order. `atStart` says whether
   * the first character of `s` opens a word.
   */
  function WordStarts(s: string, atStart: bool): string
  {
    if s == [] then ""
    else (if atStart && s[0] != ' ' then [s[0]] else "") + WordStarts(s[1..], s[0] == ' ')
  }

  /** The first characters of the split words are exactly the word starts of the name. */
  lemma {:induction false} FirstCharsAreWordStarts(s: string, atStart: bool)
    ensures WordStarts(s, atStart) ==
      if atStart then FirstChars(Split(s)) else FirstChars(Split(s)[1..])
  {
    if s == [] {
      assert FirstChars([""]) == "" + FirstChars([]);
    } else {
      FirstCharsAreWordStarts(s[1..], s[0] == ' ');
      var rest := Split(s[1..]);
      if s[0] == ' ' {
        assert Split(s) == [""] + rest;
        assert Split(s)[1..] == rest;
        assert FirstChars(Split(s)) == "" + FirstChars(rest);
      } else {
        var w := [s[0]] + rest[0];
        assert Split(s) == [w] + rest[1..];
        assert Split(s)[1..] == rest[1..];
        assert FirstChars(Split(s)) == [s[0]] + FirstChars(rest[1..]);
      }
    }
  }

  /** `s.slice(0, 2)`. */
  function Take2(s: string): (r: string)
    ensures |r| <= 2 && r <= s
    ensures |s| <= 2 ==> r == s
    ensures |s| > 2 ==> r == s[..2]
  {
    if |s| <= 2 then s else s[..2]
  }

  /** The initials: "U" for a missing or empty name, else the first two upper-cased word starts. */
  function Initials(name: Option<string>): (r: string)
    ensures |r| <= 2
    ensures name.None? || name == Some("") ==> r == "U"
  {
    if name.Some? && name.value != "" then Take2(Upper(FirstChars(Split(name.value))))
    else "U"
  }

  /** The initials are the upper-cased starts of the first two non-empty words, in word order. */
  lemma InitialsAreWordStarts(name: string)
    requires name != ""
    ensures Initials(Some(name)) == Take2(Upper(WordStarts(name, true)))
    ensures forall i :: 0 <= i < |Initials(Some(name))| ==> Initials(Some(name))[i] != ' '
  {
    FirstCharsAreWordStarts(name, true);
    WordStartsNoSpace(name, true);
  }

  /** A word start is never a space. */
  lemma {:induction false} WordStartsNoSpace(s: string, atStart: bool)
    ensures forall i :: 0 <= i < |WordStarts(s, atStart)| ==> WordStarts(s, atStart)[i] != ' '
  {
    if s != [] {
      WordStartsNoSpace(s[1..], s[0] == ' ');
    }
  }

  /** A name with no spaces yields exactly one character: its first, upper-cased. */
  lemma {:induction false} SingleWordOneInitial(name: string)
    requires name != "" && ' ' !in name
    ensures Initials(Some(name)) == [UpperChar(name[0])]
  {
    InitialsAreWordStarts(name);
    SingleWordStart(name);
  }

  /** Inside a word (no space to open a new one) there are no word starts. */
  lemma {:induction false} NoWordStartsInside(s: string)
    requires ' ' !in s
    ensures WordStarts(s, false) == ""
  {
    if s != [] {
      assert forall c :: c in s[1..] ==> c in s;
      NoWordStartsInside(s[1..]);
    }
  }

  /** A name made only of spaces is truthy but has no word starts: its initials are empty. */
  lemma {:induction false} OnlySpacesNoInitials(name: string)
    requires name != "" && forall i :: 0 <= i < |name| ==> name[i] == ' '
    ensures Initials(Some(name)) == ""
  {
    InitialsAreWordStarts(name);
    var ws := WordStarts(name, true);
    if ws != "" {
      NoSpaceStartsInSpaces(name, true);
    }
  }

  /** Over a string of spaces, no position opens a word. */
  lemma {:induction false} NoSpaceStartsInSpaces(s: string, atStart: bool)
    requires forall i :: 0 <= i < |s| ==> s[i] == ' '
    ensures WordStarts(s, atStart) == ""
  {
    if s != [] {
      NoSpaceStartsInSpaces(s[1..], true);
    }
  }

  /** `UserButton()`: nothing without a user; otherwise the avatar with its initials. */
  function Render(user: Option<CurrentUser>): (r: Rendered)
    ensures r.Nothing? <==> user.None?
    ensures r.Avatar? ==> |r.initials| <= 2 && r.initials == Initials(user.value.name)
  {
    match user
    case None => Nothing
    case Some(u) => Avatar(Initials(u.name))
  }

  /** Word starts of a concatenation: the second part opens a word where the first ends in a space. */
  lemma {:induction false} WordStartsConcat(x: string, y: string, atStart: bool)
    ensures WordStarts(x + y, atStart) ==
      WordStarts(x, atStart) + WordStarts(y, if x == [] then atStart else x[|x| - 1] == ' ')
  {
    if x == [] {
      assert x + y == y;
    } else {
      var tail := x[1..];
      assert x + y == [x[0]] + (tail + y);
      WordStartsConcat(tail, y, x[0] == ' ');
      assert tail != [] ==> tail[|tail| - 1] == x[|x| - 1];
      var head: string := if atStart && x[0] != ' ' then [x[0]] else "";
      var a := WordStarts(tail, x[0] == ' ');
      var b := WordStarts(y, x[|x| - 1] == ' ');
      assert head + (a + b) == (head + a) + b;
    }
  }

  /** A name of two space-separated words gives both initials, upper-cased, in order. */
  lemma {:induction false} TwoWordsTwoInitials(first: string, last: string)
    requires first != "" && ' ' !in first
    requires last != "" && ' ' !in last
    ensures Initials(Some(first + " " + last)) == [UpperChar(first[0]), UpperChar(last[0])]
  {
    var name := first + " " + last;
    InitialsAreWordStarts(name);
    WordStartsConcat(first + " ", last, true);
    WordStartsConcat(first, " ", true);
    assert (first + " ")[|first + " "| - 1] == ' ';
    SingleWordStart(first);
    SingleWordStart(last);
  }

  /** A single word has one word start: its first character. */
  lemma {:induction false} SingleWordStart(w: string)
    requires w != "" && ' ' !in w
    ensures WordStarts(w, true) == [w[0]]
  {
    NoWordStartsInside(w[1..]);
  }
}
