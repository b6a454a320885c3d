/** Sequence helpers shared by the models: bytes, concatenation, splitting, joining and letter case. */
module Text {

  type Bytes = seq<bv8>

  datatype Option<+T> = None | Some(value: T)

  function Concat<T>(parts: seq<seq<T>>): seq<T> {
    if parts == [] then [] else parts[0] + Concat(parts[1..])
  }

  lemma {:induction false} ConcatSnoc<T>(parts: seq<seq<T>>, last: seq<T>)
    ensures Concat(parts + [last]) == Concat(parts) + last
  {
    if parts == [] {
      assert [] + [last] == [last] && Concat([last]) == last + [];
    } else {
      assert (parts + [last])[1..] == parts[1..] + [last];
      ConcatSnoc(parts[1..], last);
    }
  }

  /** The parts of a text made of three. */
  lemma Middle<T>(a: seq<T>, b: seq<T>, c: seq<T>)
    ensures var s := a + (b + c);
      s[..|a|] == a && s[|a|..|a| + |b|] == b && s[|a| + |b|..] == c
  {
  }

  /** Joins `parts` with `separator` between neighbours. */
  function Join(parts: seq<string>, separator: string): string {
    if parts == [] then ""
    else if |parts| == 1 then parts[0]
    else parts[0] + separator + Join(parts[1..], separator)
  }

  /** Splits at every occurrence of one character; the empty string has one empty part. */
  function Split(s: string, separator: char): (parts: seq<string>)
    ensures |parts| > 0
    ensures forall part :: part in parts ==> separator !in part
    ensures Join(parts, [separator]) == s
  {
    if s == "" then [""]
    else
      var rest := Split(s[1..], separator);
      if s[0] == separator then [""] + rest
      else [[s[0]] + rest[0]] + rest[1..]
  }

  /** Splitting undoes joining when no part contains the separator. */
  lemma {:induction false} SplitOfJoin(parts: seq<string>, separator: char)
    requires |parts| > 0
    requires forall part :: part in parts ==> separator !in part
    ensures Split(Join(parts, [separator]), separator) == parts
  {
    var first := parts[0];
    if |parts| == 1 {
      SplitPlain(first, separator);
    } else {
      SplitOfJoin(parts[1..], separator);
      SplitAfterPrefix(first, Join(parts[1..], [separator]), separator);
      assert first + ([separator] + Join(parts[1..], [separator])) == Join(parts, [separator]);
    }
  }

  lemma {:induction false} SplitPlain(s: string, separator: char)
    requires separator !in s
    ensures Split(s, separator) == [s]
  {
    if s != "" {
      SplitPlain(s[1..], separator);
      assert [s[0]] + s[1..] == s;
    }
  }

  lemma {:induction false} SplitAfterPrefix(prefix: string, rest: string, separator: char)
    requires separator !in prefix
    ensures Split(prefix + ([separator] + rest), separator) == [prefix] + Split(rest, separator)
  {
    var whole := prefix + ([separator] + rest);
    if prefix == "" {
      assert whole[1..] == rest;
    } else {
      assert whole[1..] == prefix[1..] + ([separator] + rest);
      SplitAfterPrefix(prefix[1..], rest, separator);
      assert [prefix[0]] + prefix[1..] == prefix;
    }
  }

  /** Joining is injective on lists of separator-free parts. */
  lemma JoinInjective(a: seq<string>, b: seq<string>, separator: char)
    requires |a| > 0 && |b| > 0
    requires forall part :: part in a ==> separator !in part
    requires forall part :: part in b ==> separator !in part
    requires Join(a, [separator]) == Join(b, [separator])
    ensures a == b
  {
    SplitOfJoin(a, separator);
    SplitOfJoin(b, separator);
  }

  lemma {:induction false} JoinAppend(a: seq<string>, b: seq<string>, separator: string)
    requires |a| > 0 && |b| > 0
    ensures Join(a + b, separator) == Join(a, separator) + separator + Join(b, separator)
  {
    if |a| == 1 {
      assert (a + b)[1..] == b;
    } else {
      assert (a + b)[1..] == a[1..] + b;
      JoinAppend(a[1..], b, separator);
    }
  }

  /** A character of a joined string comes from a part or from the separator. */
  lemma {:induction false} JoinCharacters(parts: seq<string>, separator: string, c: char)
    requires c in Join(parts, separator)
    ensures c in separator || exists part :: part in parts && c in part
  {
    if |parts| == 1 {
      assert parts[0] in parts;
    } else if |parts| > 1 && c !in parts[0] && c !in separator {
      JoinCharacters(parts[1..], separator, c);
    } else {
      assert parts[0] in parts;
    }
  }

  /** Upper-case and lower-case mapping of the ASCII letters. */
  function Upper(s: string): (r: string)
    ensures |r| == |s|
  {
    seq(|s|, i requires 0 <= i < |s| => if 'a' <= s[i] <= 'z' then (s[i] as int - 32) as char else s[i])
  }

  function Lower(s: string): (r: string)
    ensures |r| == |s|
  {
    seq(|s|, i requires 0 <= i < |s| => if 'A' <= s[i] <= 'Z' then (s[i] as int + 32) as char else s[i])
  }

  predicate Capital(c: char) {
    'A' <= c <= 'Z'
  }

  predicate Small(c: char) {
    'a' <= c <= 'z'
  }

  /** The alphabets go over into each other in order, from A to Z, and nothing else changes. */
  lemma LetterCase(s: string, i: nat, j: nat)
    requires i < |s| && j < |s|
    ensures !Capital(s[i]) ==> Lower(s)[i] == s[i]
    ensures !Small(s[i]) ==> Upper(s)[i] == s[i]
    ensures Capital(s[i]) ==> Small(Lower(s)[i]) && Upper(Lower(s))[i] == s[i]
    ensures Small(s[i]) ==> Capital(Upper(s)[i]) && Lower(Upper(s))[i] == s[i]
    ensures Capital(s[i]) && Capital(s[j]) && s[i] < s[j] ==> Lower(s)[i] < Lower(s)[j]
    ensures Lower("AZ") == "az" && Upper("az") == "AZ"
  {
  }

  /** White space as `str.strip` and `str.isspace` know it. */
  predicate Blank(c: char) {
    '\t' <= c <= '\r' || '\U{1c}' <= c <= ' ' || c == '\U{85}' || c == '\U{a0}' || c == '\U{1680}'
    || '\U{2000}' <= c <= '\U{200a}' || c in {'\U{2028}', '\U{2029}', '\U{202f}', '\U{205f}', '\U{3000}'}
  }

  /** The white space that Python knows, and no printable ASCII character. */
  lemma BlankCharacters()
    ensures forall c :: c in "\t\n\U{b}\U{c}\r\U{1c}\U{1d}\U{1e}\U{1f} \U{85}\U{a0}\U{1680}" ==> Blank(c)
    ensures forall c :: c in "\U{2000}\U{2001}\U{2002}\U{2003}\U{2004}\U{2005}\U{2006}\U{2007}" ==> Blank(c)
    ensures forall c :: c in "\U{2008}\U{2009}\U{200a}\U{2028}\U{2029}\U{202f}\U{205f}\U{3000}" ==> Blank(c)
    ensures forall c :: '!' <= c <= '~' ==> !Blank(c)
  {
  }

  function Strip(s: string): (r: string)
    ensures |r| <= |s|
    ensures r != "" ==> !Blank(r[0]) && !Blank(r[|r| - 1])
    ensures s != "" && !Blank(s[0]) && !Blank(s[|s| - 1]) ==> r == s
  {
    if s == "" then ""
    else if Blank(s[0]) then Strip(s[1..])
    else if Blank(s[|s| - 1]) then Strip(s[..|s| - 1])
    else s
  }
}
