/** The `User` model: the before-create colour hook and the `initials`
    getter, which splits the full name on single spaces (JavaScript
    `split(' ')`) and upper-cases ASCII letters. */
module UserModel {

  /** `s.split(' ')`: maximal space-free pieces, empty ones included. */
  function Split(s: string): (words: seq<string>)
    ensures |words| >= 1
    ensures forall i :: 0 <= i < |words| ==> ' ' !in words[i]
    ensures Join(words) == s
  {
    if s == [] then [""]
    else
      var rest := Split(s[1..]);
      assert s == [s[0]] + s[1..];
      if s[0] == ' ' then [""] + rest
      else [[s[0]] + rest[0]] + rest[1..]
  }

  /** `words.join(' ')`. */
  function Join(words: seq<string>): (r: string)
    ensures words != [] ==> words[0] <= r
  {
    if words == [] then ""
    else if |words| == 1 then words[0]
    else words[0] + " " + Join(words[1..])
  }

  /** A space-free string is a single word. */
  lemma {:induction false} SplitWord(w: string)
    requires ' ' !in w
    ensures Split(w) == [w]
  {
    if w != [] {
      SplitWord(w[1..]);
    }
  }

  /** Splitting after a space-free word yields that word first. */
  lemma {:induction false} SplitAfterWord(w: string, rest: string)
    requires ' ' !in w
    ensures Split(w + " " + rest) == [w] + Split(rest)
  {
    if w == [] {
      assert w + " " + rest == [' '] + rest;
      assert ([' '] + rest)[1..] == rest;
    } else {
      assert (w + " " + rest)[1..] == w[1..] + " " + rest;
      SplitAfterWord(w[1..], rest);
      assert [w[0]] + w[1..] == w;
    }
  }

  /** Splitting is the inverse of joining space-free words. */
  lemma {:induction false} SplitJoin(words: seq<string>)
    requires |words| >= 1
    requires forall i :: 0 <= i < |words| ==> ' ' !in words[i]
    ensures Split(Join(words)) == words
  {
    if |words| == 1 {
      SplitWord(words[0]);
    } else {
      SplitJoin(words[1..]);
      SplitAfterWord(words[0], Join(words[1..]));
    }
  }

  /** ASCII `toUpperCase` of one character. */
  function UpperChar(c: char): char
  {
    if 'a' <= c <= 'z' then (c as int - 32) as char else c
  }

  predicate IsLower(c: char)
  {
    'a' <= c <= 'z'
  }

  /** ASCII `toUpperCase`. */
  function ToUpper(s: string): (r: string)
    ensures |r| == |s|
    ensures forall i :: 0 <= i < |s| ==> r[i] == UpperChar(s[i])
    ensures forall i :: 0 <= i < |r| ==> !IsLower(r[i])
  {
    if s == [] then [] else [UpperChar(s[0])] + ToUpper(s[1..])
  }

  /** `s.slice(0, n)` for n >= 0. */
  function Prefix(s: string, n: nat): (r: string)
    ensures |r| == if |s| <= n then |s| else n
    ensures r <= s
  {
    if |s| <= n then s else s[..n]
  }

  /** The `initials` getter: first letters of the first two words, or the
      first two letters of the first word when the second word is missing
      or empty. */
  function Initials(fullName: string): (r: string)
    ensures |r| <= 2
    ensures forall i :: 0 <= i < |r| ==> !IsLower(r[i])
  {
    var words := Split(fullName);
    var firstName := words[0];
    if |words| > 1 && words[1] != "" then
      ToUpper(Prefix(firstName, 1) + Prefix(words[1], 1))
    else
      ToUpper(Prefix(firstName, 2))
  }

  /** Two words: the upper-cased first letter of each (the first may be
      empty when the name starts with a space). */
  lemma InitialsOfTwoWords(first: string, last: string)
    requires ' ' !in first && ' ' !in last && last != ""
    ensures Initials(first + " " + last) == ToUpper(Prefix(first, 1) + [last[0]])
  {
    SplitAfterWord(first, last);
    SplitWord(last);
  }

  /** Words after the second one do not matter. */
  lemma InitialsIgnoreLaterWords(first: string, last: string, rest: string)
    requires ' ' !in first && ' ' !in last
    ensures Initials(first + " " + last + " " + rest) == Initials(first + " " + last)
  {
    assert first + " " + last + " " + rest == first + " " + (last + " " + rest);
    SplitAfterWord(first, last + " " + rest);
    SplitAfterWord(last, rest);
    SplitAfterWord(first, last);
    SplitWord(last);
  }

  /** A single word: its first two letters, upper-cased. */
  lemma InitialsOfOneWord(name: string)
    requires ' ' !in name
    ensures Initials(name) == ToUpper(Prefix(name, 2))
  {
    SplitWord(name);
  }

  /** An empty second word (a trailing space, or two spaces in a row) falls
      back to the first two letters of the first word. */
  lemma InitialsWithEmptySecondWord(first: string, rest: string)
    requires ' ' !in first
    requires rest == [] || rest[0] == ' '
    ensures Initials(first + " " + rest) == ToUpper(Prefix(first, 2))
  {
    SplitAfterWord(first, rest);
  }

  /** A user record as the model class holds it. `profileColor` is empty
      until the before-create hook fills it in. */
  class User {
    var id: int
    var email: string
    var fullName: string
    var profileColor: string
    var avatar: string

    constructor (id: int, email: string, fullName: string, avatar: string)
      ensures this.id == id && this.email == email && this.fullName == fullName
      ensures this.avatar == avatar && this.profileColor == ""
    {
      this.id := id;
      this.email := email;
      this.fullName := fullName;
      this.profileColor := "";
      this.avatar := avatar;
    }

    /** Before-create hook: stores the palette colour drawn for this user
        (the random draw is the parameter). Touches no other field. */
    method AssignColor(color: string)
      modifies this`profileColor
      ensures profileColor == color
    {
      profileColor := color;
    }

    /** The `initials` getter of the instance. */
    function InitialsOfName(): (r: string)
      reads this
      ensures |r| <= 2
      ensures forall i :: 0 <= i < |r| ==> !IsLower(r[i])
    {
      Initials(fullName)
    }
  }
}
