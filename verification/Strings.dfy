/** Splitting and joining strings, as JavaScript does it. */
module Strings {

  /** White space as `\s` understands it. */
  predicate IsSpace(c: char) {
    c in {' ', '\t', '\n', '\r', '\U{0B}', '\U{0C}', '\U{A0}', '\U{1680}', '\U{2028}', '\U{2029}',
          '\U{202F}', '\U{205F}', '\U{3000}', '\U{FEFF}'} || '\U{2000}' <= c <= '\U{200A}'
  }

  /** ... by code point. */
  lemma SpaceIs(c: char)
    ensures IsSpace(c)
      <==> var u := c as int;
           || 9 <= u <= 13 || u in {32, 0xA0, 0x1680, 0x2028, 0x2029, 0x202F, 0x205F, 0x3000, 0xFEFF}
           || 0x2000 <= u <= 0x200A
  {
  }

  /** Nothing is left after `trim()`. */
  predicate Blank(s: string) {
    forall c <- s :: IsSpace(c)
  }

  /** `s.split(sep)`. */
  function Split(s: string, sep: char): (parts: seq<string>)
    ensures parts != []
  {
    if s == "" then [""]
    else
      var rest := Split(s[1..], sep);
      Prepend(s[0], rest, sep)
  }

  /** The parts of a string with one more character in front. */
  function Prepend(c: char, parts: seq<string>, sep: char): (r: seq<string>)
    requires parts != []
    ensures r != []
  {
    if c == sep then [""] + parts else [[c] + parts[0]] + parts[1..]
  }

  function Join(parts: seq<string>, sep: char): string
    requires parts != []
  {
    if |parts| == 1 then parts[0] else parts[0] + [sep] + Join(parts[1..], sep)
  }

  lemma {:induction false} SplitsWhenPresent(s: string, sep: char)
    ensures |Split(s, sep)| > 1 <==> sep in s
  {
    if s != "" {
      SplitsWhenPresent(s[1..], sep);
    }
  }

  lemma {:induction false} SplitNone(s: string, sep: char)
    requires sep !in s
    ensures Split(s, sep) == [s]
  {
    if s != "" {
      assert s[0] in s && forall c <- s[1..] :: c in s;
      SplitNone(s[1..], sep);
      assert [s[0]] + s[1..] == s;
    }
  }

  lemma {:induction false} SplitFirst(a: string, sep: char, rest: string)
    requires sep !in a
    ensures Split(a + [sep] + rest, sep) == [a] + Split(rest, sep)
  {
    var s := a + [sep] + rest;
    if a == "" {
      assert s[1..] == rest;
    } else {
      assert a[0] in a && forall c <- a[1..] :: c in a;
      SplitFirst(a[1..], sep, rest);
      assert s[1..] == a[1..] + [sep] + rest;
      assert [s[0]] + a[1..] == a;
    }
  }

  lemma {:induction false} SplitJoin(parts: seq<string>, sep: char)
    requires parts != [] && forall p <- parts :: sep !in p
    ensures Split(Join(parts, sep), sep) == parts
  {
    assert parts[0] in parts;
    if |parts| == 1 {
      SplitNone(parts[0], sep);
    } else {
      assert forall p <- parts[1..] :: p in parts;
      SplitJoin(parts[1..], sep);
      SplitFirst(parts[0], sep, Join(parts[1..], sep));
    }
  }

  lemma PrependMany(c: char, front: seq<string>, last: seq<string>, sep: char)
    requires front != [] && last != []
    ensures Prepend(c, front + last, sep) == Prepend(c, front, sep) + last
  {
  }

  lemma SplitUnfolds(s: string, sep: char)
    ensures Split(s, sep) == if s == "" then [""] else Prepend(s[0], Split(s[1..], sep), sep)
  {
  }

  /** Text that arrives later only affects the last part. */
  lemma {:induction false} SplitAppend(a: string, b: string, sep: char)
    ensures var parts := Split(a, sep);
      Split(a + b, sep) == parts[..|parts| - 1] + Split(parts[|parts| - 1] + b, sep)
  {
    SplitUnfolds(a, sep);
    SplitUnfolds(a + b, sep);
    hide Split;
    if a == "" {
      assert a + b == b && "" + b == b;
    } else {
      var c, rest := a[0], Split(a[1..], sep);
      var front, last := rest[..|rest| - 1], rest[|rest| - 1];
      var tail := Split(last + b, sep);
      SplitAppend(a[1..], b, sep);
      assert (a + b)[1..] == a[1..] + b && (a + b)[0] == c;
      assert rest == front + [last];
      SplitAppendStep(c, front, last, b, tail, sep);
    }
  }

  lemma SplitAppendStep(c: char, front: seq<string>, last: string, b: string, tail: seq<string>, sep: char)
    requires tail != [] && tail == Split(last + b, sep)
    ensures var parts := Prepend(c, front + [last], sep);
      Prepend(c, front + tail, sep) == parts[..|parts| - 1] + Split(parts[|parts| - 1] + b, sep)
  {
    if front != [] {
      PrependMany(c, front, [last], sep);
      PrependMany(c, front, tail, sep);
    } else {
      assert [] + [last] == [last] && [] + tail == tail;
      if c != sep {
        var head := [c] + last;
        assert head + b == [c] + (last + b);
        assert (head + b)[1..] == last + b;
      }
    }
  }
}
