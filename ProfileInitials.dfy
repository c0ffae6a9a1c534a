/**
 * The avatar initials of the profile dialog (app/components/ProfileModal.tsx):
 * `name.split(' ').map(n => n[0]).join('').toUpperCase().slice(0, 2)`. An empty segment has no
 * first character; `join` renders the resulting `undefined` as the empty string.
 */
module ProfileInitials {
  import Text

  /** `toUpperCase`, restricted to ASCII letters. */
  function Upper(c: char): (u: char)
    ensures 'a' <= c <= 'z' ==> 'A' <= u <= 'Z' && u as int == c as int - 32
    ensures !('a' <= c <= 'z') ==> u == c
  {
    if 'a' <= c <= 'z' then (c as int - 32) as char else c
  }

  function UpperAll(s: string): (r: string)
    ensures |r| == |s| && forall i :: 0 <= i < |s| ==> r[i] == Upper(s[i])
  {
    if s == [] then [] else [Upper(s[0])] + UpperAll(s[1..])
  }

  /** `n[0]`, with `undefined` joined as `""`. */
  function Head(part: string): string
  {
    if part == "" then "" else [part[0]]
  }

  /** `map(n => n[0]).join('')`. */
  function Heads(parts: seq<string>): (r: string)
    ensures |r| <= |parts|
  {
    if parts == [] then "" else Head(parts[0]) + Heads(parts[1..])
  }

  function Initials(name: string): (r: string)
    ensures |r| <= 2
  {
    var all := UpperAll(Heads(Text.Split(name, ' ')));
    if |all| <= 2 then all else all[..2]
  }

  /** Reference reading: the characters that start a word, i.e. follow the start or a space. */
  function WordStarts(s: string, atStart: bool): (r: string)
  {
    if s == [] then ""
    else (if atStart && s[0] != ' ' then [s[0]] else "") + WordStarts(s[1..], s[0] == ' ')
  }

  /** The heads of the segments are the word starts of the name. */
  lemma {:induction false} HeadsAreWordStarts(s: string)
    ensures Heads(Text.Split(s, ' ')) == WordStarts(s, true)
    ensures Heads(Text.Split(s, ' ')[1..]) == WordStarts(s, false)
  {
    if s != [] {
      HeadsAreWordStarts(s[1..]);
      var rest := Text.Split(s[1..], ' ');
      if s[0] == ' ' {
        assert Text.Split(s, ' ') == [""] + rest;
        assert (Text.Split(s, ' '))[1..] == rest;
      } else {
        var parts := Text.Split(s, ' ');
        assert parts == [[s[0]] + rest[0]] + rest[1..];
        assert parts[1..] == rest[1..];
        assert Head(parts[0]) == [s[0]];
      }
    }
  }

  /**
   * The initials are the upper-cased word starts of the name, at most two of them: spaces at
   * either end or in a row contribute nothing.
   */
  lemma InitialsAreWordStarts(name: string)
    ensures var w := UpperAll(WordStarts(name, true));
      Initials(name) == if |w| <= 2 then w else w[..2]
  {
    HeadsAreWordStarts(name);
  }

  /** Every initial starts a word of the name. */
  lemma {:induction false} WordStartsAreWordChars(s: string, atStart: bool)
    ensures forall c :: c in WordStarts(s, atStart) ==> c in s && c != ' '
  {
    if s != [] {
      WordStartsAreWordChars(s[1..], s[0] == ' ');
      assert s == [s[0]] + s[1..];
    }
  }

  /** An empty name has no initials; a single word has exactly one. */
  lemma InitialsExamples(word: string)
    requires word != "" && ' ' !in word
    ensures Initials("") == ""
    ensures Initials(word) == [Upper(word[0])]
  {
    Text.SplitNone(word, ' ');
    assert Text.Split("", ' ') == [""];
  }

  /** Two words give the first letter of each. */
  lemma TwoWords(a: string, b: string)
    requires a != "" && b != "" && ' ' !in a && ' ' !in b
    ensures Initials(a + " " + b) == [Upper(a[0]), Upper(b[0])]
  {
    Text.SplitAroundOne(a, b, ' ');
    assert a + " " + b == a + [' '] + b;
    assert [a, b][1..] == [b] && [b][1..] == [];
    assert Heads([a, b]) == [a[0], b[0]];
  }
}
