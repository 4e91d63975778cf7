/** Undoing shell escaping in compilation databases. */
module Unescape {

  /** Replaces every occurrence of the two characters `x`, `y`, leftmost first, by `z`. */
  function Replace(s: string, x: char, y: char, z: char): string {
    if |s| < 2 then s
    else if s[0] == x && s[1] == y then [z] + Replace(s[2..], x, y, z)
    else [s[0]] + Replace(s[1..], x, y, z)
  }

  /** Two passes over the whole string: first the quotes, then the backslashes. */
  function UndoEscaping(s: string): string {
    Replace(Replace(s, '\\', '"', '"'), '\\', '\\', '\\')
  }

  /** One pass that drops the backslash before each quote or backslash it escapes. */
  function Unescaped(s: string): string {
    if |s| < 2 then s
    else if s[0] == '\\' && (s[1] == '\\' || s[1] == '"') then [s[1]] + Unescaped(s[2..])
    else [s[0]] + Unescaped(s[1..])
  }

  /** Puts a backslash before each quote and each backslash. */
  function Escaped(s: string): string {
    if s == "" then ""
    else (if s[0] == '\\' || s[0] == '"' then ['\\', s[0]] else [s[0]]) + Escaped(s[1..])
  }

  lemma SecondPassCons(c: char, rest: string)
    requires c != '\\' || rest == "" || rest[0] != '\\'
    ensures Replace([c] + rest, '\\', '\\', '\\') == [c] + Replace(rest, '\\', '\\', '\\')
  {
    assert ([c] + rest)[1..] == rest;
  }

  lemma SecondPassPair(rest: string)
    ensures Replace(['\\'] + (['\\'] + rest), '\\', '\\', '\\') == ['\\'] + Replace(rest, '\\', '\\', '\\')
  {
    assert (['\\'] + (['\\'] + rest))[2..] == rest;
  }

  /** What the first pass leaves in front. */
  lemma FirstPassHead(s: string)
    requires s != ""
    ensures var t := Replace(s, '\\', '"', '"');
      t != "" && t[0] == if |s| >= 2 && s[0] == '\\' && s[1] == '"' then '"' else s[0]
  {
  }

  /** On every string, escaped or not, the two passes do what the single pass does. */
  lemma {:induction false} TwoPassesAreOne(s: string)
    ensures UndoEscaping(s) == Unescaped(s)
    decreases |s|
  {
    if |s| >= 2 {
      TwoPassesAreOne(s[1..]);
      TwoPassesAreOne(s[2..]);
      FirstPassHead(s[1..]);
      var rest := Replace(s[1..], '\\', '"', '"');
      if s[0] == '\\' && s[1] == '"' {
        SecondPassCons('"', Replace(s[2..], '\\', '"', '"'));
      } else if s[0] == '\\' && s[1] == '\\' {
        if |s| >= 3 && s[2] == '"' {
          TwoPassesAreOne(s[3..]);
          var tail := Replace(s[3..], '\\', '"', '"');
          assert s[1..][2..] == s[3..] && s[2..][1..] == s[3..];
          assert rest == ['"'] + tail;
          SecondPassCons('\\', rest);
          SecondPassCons('"', tail);
          assert Unescaped(s[2..]) == ['"'] + Unescaped(s[3..]) by {
            assert |s[2..]| < 2 ==> s[3..] == "";
          }
        } else {
          assert s[1..][1..] == s[2..];
          var tail := Replace(s[2..], '\\', '"', '"');
          assert rest == ['\\'] + tail;
          SecondPassPair(tail);
        }
      } else {
        SecondPassCons(s[0], rest);
      }
    }
  }

  /** Undoing drops the backslash of an escaped quote or backslash and lets everything else pass. */
  lemma UndoOneByOne(c: char, rest: string)
    ensures UndoEscaping("") == "" && UndoEscaping([c]) == [c]
    ensures c == '\\' || c == '"' ==> UndoEscaping(['\\', c] + rest) == [c] + UndoEscaping(rest)
    ensures c != '\\' || rest == "" || (rest[0] != '\\' && rest[0] != '"') ==>
      UndoEscaping([c] + rest) == [c] + UndoEscaping(rest)
  {
    TwoPassesAreOne(['\\', c] + rest);
    TwoPassesAreOne([c] + rest);
    TwoPassesAreOne(rest);
    assert (['\\', c] + rest)[2..] == rest && ([c] + rest)[1..] == rest;
  }

  lemma {:induction false} UnescapedEscaped(s: string)
    ensures Unescaped(Escaped(s)) == s
    decreases |s|
  {
    if s != "" {
      UnescapedEscaped(s[1..]);
      var rest := Escaped(s[1..]);
      if s[0] == '\\' || s[0] == '"' {
        assert Escaped(s)[2..] == rest;
      } else {
        assert Escaped(s) == [s[0]] + rest && Escaped(s)[1..] == rest;
      }
      assert s == [s[0]] + s[1..];
    }
  }

  /** Undoing inverts escaping on every string. */
  lemma UndoInvertsEscape(s: string)
    ensures UndoEscaping(Escaped(s)) == s
  {
    TwoPassesAreOne(Escaped(s));
    UnescapedEscaped(s);
  }
}
