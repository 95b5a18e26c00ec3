/** ASCII string operations with the meaning of Python's str methods:
    upper(), lower(), title(), split(sep), sep.join(parts), endswith() and
    replace() of one character by another.  Letters outside A-Z/a-z are
    left unchanged by the case operations. */
module Text {

  predicate IsUpperLetter(c: char) { 'A' <= c <= 'Z' }
  predicate IsLowerLetter(c: char) { 'a' <= c <= 'z' }
  predicate IsLetter(c: char) { IsUpperLetter(c) || IsLowerLetter(c) }

  function UpperChar(c: char): char {
    if IsLowerLetter(c) then (c as int - 32) as char else c
  }

  function LowerChar(c: char): char {
    if IsUpperLetter(c) then (c as int + 32) as char else c
  }

  /** str.upper() */
  function Upper(s: string): string {
    seq(|s|, i requires 0 <= i < |s| => UpperChar(s[i]))
  }

  /** str.lower() */
  function Lower(s: string): string {
    seq(|s|, i requires 0 <= i < |s| => LowerChar(s[i]))
  }

  /** str.title(): a letter that starts a run of letters is upper-cased,
      every other letter is lower-cased. */
  function Title(s: string): string {
    seq(|s|, i requires 0 <= i < |s| =>
      if IsLetter(s[i]) && (i == 0 || !IsLetter(s[i - 1])) then UpperChar(s[i]) else LowerChar(s[i]))
  }

  /** The test `s == s.lower()`. */
  predicate IsLowercase(s: string) {
    Lower(s) == s
  }

  /** A string is lower-case exactly when it holds no upper-case letter. */
  lemma LowercaseIffNoUpper(s: string)
    ensures IsLowercase(s) <==> forall i :: 0 <= i < |s| ==> !IsUpperLetter(s[i])
  {
    if IsLowercase(s) {
      forall i | 0 <= i < |s| ensures !IsUpperLetter(s[i]) {
        assert Lower(s)[i] == s[i];
      }
    }
  }

  /** Lower-casing is idempotent and erases the effect of upper() and title(). */
  lemma LowerOfCaseChanges(s: string)
    ensures IsLowercase(Lower(s))
    ensures Lower(Upper(s)) == Lower(s)
    ensures Lower(Title(s)) == Lower(s)
  {
  }

  lemma LowerConcat(a: string, b: string)
    ensures Lower(a + b) == Lower(a) + Lower(b)
  {
  }

  /** str.split(sep) for a one-character separator: the pieces between the
      occurrences of sep, so there is always at least one piece. */
  function Split(s: string, sep: char): (parts: seq<string>)
    ensures |parts| >= 1
  {
    if |s| == 0 then [""]
    else
      var rest := Split(s[1..], sep);
      if s[0] == sep then [""] + rest
      else [[s[0]] + rest[0]] + rest[1..]
  }

  /** The pieces of a split are made of the string's characters, without
      the separator. */
  lemma {:induction false} SplitPieces(s: string, sep: char)
    ensures forall p | p in Split(s, sep) :: forall c | c in p :: c in s && c != sep
  {
    if |s| > 0 {
      var rest := Split(s[1..], sep);
      SplitPieces(s[1..], sep);
      assert forall c | c in s[1..] :: c in s;
      if s[0] != sep {
        assert forall c | c in [s[0]] + rest[0] :: c == s[0] || c in rest[0];
        assert forall p | p in rest[1..] :: p in rest;
        assert rest[0] in rest;
      }
    }
  }

  /** sep.join(parts) */
  function Join(sep: char, parts: seq<string>): string
    requires |parts| >= 1
  {
    if |parts| == 1 then parts[0] else parts[0] + [sep] + Join(sep, parts[1..])
  }

  /** Joining the pieces of a split with the same separator gives back the string. */
  lemma {:induction false} JoinSplit(s: string, sep: char)
    ensures Join(sep, Split(s, sep)) == s
  {
    if |s| > 0 {
      var rest := Split(s[1..], sep);
      JoinSplit(s[1..], sep);
      if s[0] == sep {
        assert Split(s, sep) == [""] + rest;
        assert ([""] + rest)[1..] == rest;
      } else {
        var parts := [[s[0]] + rest[0]] + rest[1..];
        assert Split(s, sep) == parts;
        if |rest| > 1 {
          assert parts[1..] == rest[1..];
          assert Join(sep, rest) == rest[0] + [sep] + Join(sep, rest[1..]);
        }
      }
    }
  }

  lemma {:induction false} SplitNoSeparator(a: string, sep: char)
    requires sep !in a
    ensures Split(a, sep) == [a]
  {
    if |a| > 0 {
      SplitNoSeparator(a[1..], sep);
      assert [a[0]] + a[1..] == a;
    }
  }

  lemma {:induction false} SplitAfterPiece(a: string, sep: char, b: string)
    requires sep !in a
    ensures Split(a + [sep] + b, sep) == [a] + Split(b, sep)
  {
    if |a| == 0 {
      assert a + [sep] + b == [sep] + b;
    } else {
      SplitAfterPiece(a[1..], sep, b);
      assert (a + [sep] + b)[1..] == a[1..] + [sep] + b;
      assert [a[0]] + a[1..] == a;
    }
  }

  /** Splitting a join gives back the pieces when none holds the separator. */
  lemma {:induction false} SplitJoin(sep: char, parts: seq<string>)
    requires |parts| >= 1 && forall p | p in parts :: sep !in p
    ensures Split(Join(sep, parts), sep) == parts
  {
    if |parts| == 1 {
      SplitNoSeparator(parts[0], sep);
    } else {
      assert parts == [parts[0]] + parts[1..];
      SplitJoin(sep, parts[1..]);
      SplitAfterPiece(parts[0], sep, Join(sep, parts[1..]));
    }
  }

  /** The pieces of a lower-case string are lower-case. */
  lemma SplitOfLowercase(s: string, sep: char)
    requires IsLowercase(s)
    ensures forall p | p in Split(s, sep) :: IsLowercase(p)
  {
    LowercaseIffNoUpper(s);
    SplitPieces(s, sep);
    forall p | p in Split(s, sep) ensures IsLowercase(p) {
      forall i | 0 <= i < |p| ensures !IsUpperLetter(p[i]) {
        assert p[i] in p;
      }
      LowercaseIffNoUpper(p);
    }
  }

  function UpperAll(ps: seq<string>): seq<string> {
    seq(|ps|, i requires 0 <= i < |ps| => Upper(ps[i]))
  }

  function TitleAll(ps: seq<string>): seq<string> {
    seq(|ps|, i requires 0 <= i < |ps| => Title(ps[i]))
  }

  function LowerAll(ps: seq<string>): seq<string> {
    seq(|ps|, i requires 0 <= i < |ps| => Lower(ps[i]))
  }

  /** Lower-casing a joined string lower-cases each piece, when the
      separator is not a letter. */
  lemma {:induction false} LowerJoin(sep: char, ps: seq<string>)
    requires |ps| >= 1 && !IsLetter(sep)
    ensures Lower(Join(sep, ps)) == Join(sep, LowerAll(ps))
  {
    if |ps| > 1 {
      LowerJoin(sep, ps[1..]);
      assert LowerAll(ps)[1..] == LowerAll(ps[1..]);
      LowerConcat(ps[0] + [sep], Join(sep, ps[1..]));
      LowerConcat(ps[0], [sep]);
    }
  }

  /** s.endswith(suffix) */
  predicate EndsWith(s: string, suffix: string) {
    |suffix| <= |s| && s[|s| - |suffix|..] == suffix
  }

  /** s.replace(from, to) for single characters. */
  function ReplaceChar(s: string, from: char, to: char): string {
    seq(|s|, i requires 0 <= i < |s| => if s[i] == from then to else s[i])
  }
}
