/** Decimal numbers and delimiter-separated text, with their inverses. */
module Delimited {
  import opened Wrappers

  // ------------------------------------------------------------------ decimal numbers

  function Digit(d: nat): char
    requires d < 10
  {
    ('0' as int + d) as char
  }

  predicate IsDigit(c: char) {
    '0' <= c <= '9'
  }

  function Show(n: nat): (s: string)
    ensures s != [] && forall i | 0 <= i < |s| :: IsDigit(s[i])
  {
    if n < 10 then [Digit(n)] else Show(n / 10) + [Digit(n % 10)]
  }

  function ParseNat(s: string): Option<nat> {
    if s == [] || !IsDigit(s[|s| - 1]) then None
    else
      var d := (s[|s| - 1] as int - '0' as int) as nat;
      if |s| == 1 then Some(d)
      else match ParseNat(s[..|s| - 1])
        case None => None
        case Some(n) => Some(10 * n + d)
  }

  lemma {:induction false} ParseShow(n: nat)
    ensures ParseNat(Show(n)) == Some(n)
  {
    if n >= 10 {
      ParseShow(n / 10);
      var s := Show(n);
      assert s[..|s| - 1] == Show(n / 10);
      assert n == 10 * (n / 10) + n % 10;
    }
  }

  lemma ShowLacks(n: nat, c: char)
    requires !IsDigit(c)
    ensures c !in Show(n)
  {
  }

  /** The white space that can stand within a line. */
  predicate Space(c: char) {
    || c in {' ', '\t', '\r', '\U{b}', '\U{c}', '\U{1c}', '\U{1d}', '\U{1e}', '\U{1f}', '\U{85}', '\U{a0}', '\U{1680}'}
    || '\U{2000}' <= c <= '\U{200a}' || c in {'\U{2028}', '\U{2029}', '\U{202f}', '\U{205f}', '\U{3000}'}
  }

  /** Nothing but white space. */
  predicate Blank(line: string) {
    forall c | c in line :: Space(c)
  }

  // ------------------------------------------------------------------ split and join

  function Split(s: string, sep: char): (parts: seq<string>)
    ensures |parts| >= 1
  {
    if s == [] then [[]]
    else
      var rest := Split(s[1..], sep);
      if s[0] == sep then [[]] + rest else [[s[0]] + rest[0]] + rest[1..]
  }

  function Join(parts: seq<string>, sep: char): string {
    if parts == [] then [] else if |parts| == 1 then parts[0] else parts[0] + [sep] + Join(parts[1..], sep)
  }

  lemma SplitFirst(s: string, sep: char)
    ensures s == [] ==> Split(s, sep) == [[]]
    ensures s != [] ==> var rest := Split(s[1..], sep);
                        Split(s, sep) == if s[0] == sep then [[]] + rest else [[s[0]] + rest[0]] + rest[1..]
  {
  }

  lemma {:induction false} SplitConcat(a: string, sep: char, b: string)
    ensures Split(a + [sep] + b, sep) == Split(a, sep) + Split(b, sep)
  {
    hide Split;
    var s := a + [sep] + b;
    SplitFirst(a, sep);
    SplitFirst(s, sep);
    if a == [] {
      assert s[1..] == b;
    } else {
      assert s[1..] == a[1..] + [sep] + b && s[0] == a[0];
      SplitConcat(a[1..], sep, b);
      var x, y := Split(a[1..], sep), Split(b, sep);
      assert (x + y)[0] == x[0] && (x + y)[1..] == x[1..] + y;
    }
  }

  lemma {:induction false} SplitWhole(a: string, sep: char)
    requires sep !in a
    ensures Split(a, sep) == [a]
  {
    if a != [] {
      SplitWhole(a[1..], sep);
      assert a == [a[0]] + a[1..];
    }
  }

  ghost predicate AllLack(parts: seq<string>, c: char) {
    forall i | 0 <= i < |parts| :: c !in parts[i]
  }

  lemma {:induction false} SplitJoin(parts: seq<string>, sep: char)
    requires parts != [] && AllLack(parts, sep)
    ensures Split(Join(parts, sep), sep) == parts
  {
    SplitWhole(parts[0], sep);
    if |parts| > 1 {
      SplitConcat(parts[0], sep, Join(parts[1..], sep));
      SplitJoin(parts[1..], sep);
      assert parts == [parts[0]] + parts[1..];
    }
  }

  lemma {:induction false} SplitLacks(s: string, sep: char, c: char)
    requires c == sep || c !in s
    ensures AllLack(Split(s, sep), c)
  {
    if s != [] {
      SplitLacks(s[1..], sep, c);
    }
  }

  lemma {:induction false} JoinLacks(parts: seq<string>, sep: char, c: char)
    requires AllLack(parts, c) && c != sep
    ensures c !in Join(parts, sep)
  {
    if |parts| > 1 {
      JoinLacks(parts[1..], sep, c);
    }
  }

  /** A piece of a split text has no more fields than the text. */
  lemma {:induction false} FieldsOfPiece(s: string, cut: char, sep: char, k: nat)
    requires cut != sep && k < |Split(s, cut)|
    ensures |Split(Split(s, cut)[k], sep)| <= |Split(s, sep)|
    ensures k > 0 ==> cut in s
  {
    if s != [] {
      var rest := Split(s[1..], cut);
      if s[0] == cut {
        if k > 0 {
          FieldsOfPiece(s[1..], cut, sep, k - 1);
        }
      } else {
        FieldsOfPiece(s[1..], cut, sep, k);
        if k == 0 {
          var piece := [s[0]] + rest[0];
          assert piece[1..] == rest[0];
        }
      }
    }
  }

  /** The tokens that are not empty. */
  function NonEmpty(parts: seq<string>): seq<string> {
    if parts == [] then [] else (if parts[0] == [] then [] else [parts[0]]) + NonEmpty(parts[1..])
  }

  lemma {:induction false} NonEmptyWhole(parts: seq<string>)
    requires forall i | 0 <= i < |parts| :: parts[i] != []
    ensures NonEmpty(parts) == parts
  {
    if parts != [] {
      NonEmptyWhole(parts[1..]);
    }
  }

  /** Tokens survive being joined, split and filtered, even when there are none. */
  lemma TokensSurvive(tokens: seq<string>, sep: char)
    requires AllLack(tokens, sep) && forall i | 0 <= i < |tokens| :: tokens[i] != []
    ensures NonEmpty(Split(Join(tokens, sep), sep)) == tokens
  {
    if tokens == [] {
      assert Split([], sep) == [[]] && NonEmpty([[]]) == NonEmpty([[]][1..]);
    } else {
      SplitJoin(tokens, sep);
      NonEmptyWhole(tokens);
    }
  }

  /** Joining undoes splitting. */
  lemma {:induction false} JoinSplit(s: string, sep: char)
    ensures Join(Split(s, sep), sep) == s
  {
    hide Split;
    SplitFirst(s, sep);
    if s != [] {
      JoinSplit(s[1..], sep);
      var rest := Split(s[1..], sep);
      if s[0] == sep {
        assert ([[]] + rest)[1..] == rest;
      } else {
        JoinGrows(s[0], rest, sep);
      }
    }
  }

  lemma JoinGrows(c: char, parts: seq<string>, sep: char)
    requires parts != []
    ensures Join([[c] + parts[0]] + parts[1..], sep) == [c] + Join(parts, sep)
  {
    assert ([[c] + parts[0]] + parts[1..])[1..] == parts[1..];
    if |parts| > 1 {
      assert [c] + parts[0] + [sep] + Join(parts[1..], sep) == [c] + (parts[0] + [sep] + Join(parts[1..], sep));
    }
  }
}
