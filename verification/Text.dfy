/**
  Strings, sequences and byte order as the Go standard library and SQLite see them; shared by the
  other modules.
 */
module Text {

  datatype Option<+T> = None | Some(value: T)

  /** Lower case of an ASCII letter; any other character stays. */
  function Fold(c: char): char
  {
    if 'A' <= c <= 'Z' then c - 'A' + 'a' else c
  }

  /** strings.ReplaceAll for a non-empty `what`: leftmost, non-overlapping occurrences. */
  function ReplaceAll(s: string, what: string, with: string): string
    requires what != []
  {
    if |s| < |what| then s
    else if s[..|what|] == what then with + ReplaceAll(s[|what|..], what, with)
    else [s[0]] + ReplaceAll(s[1..], what, with)
  }

  lemma ReplaceCons(c: char, s: string, what: char, with: string)
    ensures ReplaceAll([c] + s, [what], with) == (if c == what then with else [c]) + ReplaceAll(s, [what], with)
  {
    var t := [c] + s;
    assert t[..1] == [c] && t[1..] == s;
  }

  lemma ConcatAssociative<T>(a: seq<T>, b: seq<T>, c: seq<T>)
    ensures (a + b) + c == a + (b + c)
  {
  }

  // ---------- backslash escapes of one character ----------

  function Escape(s: string, c: char): string { ReplaceAll(s, [c], ['\\', c]) }

  function Unescape(s: string, c: char): string { ReplaceAll(s, ['\\', c], [c]) }

  lemma EscapeCons(a: char, s: string, c: char)
    ensures Escape([a] + s, c) == (if a == c then ['\\', c] else [a]) + Escape(s, c)
  {
    ReplaceCons(a, s, c, ['\\', c]);
  }

  lemma UnescapePair(s: string, c: char)
    ensures Unescape(['\\', c] + s, c) == [c] + Unescape(s, c)
  {
    var t := ['\\', c] + s;
    assert t[..2] == ['\\', c] && t[2..] == s;
  }

  lemma UnescapeCons(a: char, s: string, c: char)
    requires a != '\\' || s == [] || s[0] != c
    ensures Unescape([a] + s, c) == [a] + Unescape(s, c)
  {
    var t := [a] + s;
    assert t[1..] == s;
    if s != [] { assert t[..2] == [a, s[0]] && t[..2][0] == a && t[..2][1] == s[0]; }
  }

  lemma EscapeStart(s: string, c: char)
    requires c != '\\'
    ensures Escape(s, c) == [] || Escape(s, c)[0] != c
  {
    if s != [] {
      assert s == [s[0]] + s[1..];
      EscapeCons(s[0], s[1..], c);
    }
  }

  /** Unescaping undoes escaping on every string, backslashes included, up to a following text. */
  lemma {:induction false} UnescapeEscapeThen(s: string, rest: string, c: char)
    requires c != '\\' && (rest == [] || rest[0] != c)
    ensures Unescape(Escape(s, c) + rest, c) == s + Unescape(rest, c)
  {
    if s == [] {
      assert Escape(s, c) + rest == rest;
    } else {
      assert s == [s[0]] + s[1..];
      EscapeCons(s[0], s[1..], c);
      UnescapeEscapeThen(s[1..], rest, c);
      EscapeStart(s[1..], c);
      UnescapeNext(s[0], Escape(s[1..], c) + rest, c);
      ConcatAssociative(if s[0] == c then ['\\', c] else [s[0]], Escape(s[1..], c), rest);
      ConcatAssociative([s[0]], s[1..], Unescape(rest, c));
    }
  }

  lemma UnescapeNext(a: char, e: string, c: char)
    requires c != '\\' && (e == [] || e[0] != c)
    ensures Unescape((if a == c then ['\\', c] else [a]) + e, c) == [a] + Unescape(e, c)
  {
    if a == c { UnescapePair(e, c); } else { UnescapeCons(a, e, c); }
  }

  lemma UnescapeEscape(s: string, c: char)
    requires c != '\\'
    ensures Unescape(Escape(s, c), c) == s
  {
    UnescapeEscapeThen(s, [], c);
    assert Escape(s, c) + [] == Escape(s, c);
  }

  // ---------- sequences ----------

  lemma EmptyIff<T(!new)>(s: seq<T>)
    ensures s == [] <==> forall x :: x !in s
  {
    if s != [] { assert s[0] in s; }
  }

  function Flatten<T>(parts: seq<seq<T>>): seq<T>
  {
    if parts == [] then [] else parts[0] + Flatten(parts[1..])
  }

  lemma {:induction false} FlattenAppend<T>(a: seq<seq<T>>, b: seq<seq<T>>)
    ensures Flatten(a + b) == Flatten(a) + Flatten(b)
  {
    if a == [] {
      assert a + b == b;
    } else {
      assert (a + b)[1..] == a[1..] + b;
      FlattenAppend(a[1..], b);
    }
  }

  lemma FlattenSnoc<T>(a: seq<seq<T>>, last: seq<T>)
    ensures Flatten(a + [last]) == Flatten(a) + last
  {
    FlattenAppend(a, [last]);
    assert [last][1..] == [];
  }

  // ---------- order ----------

  /** SQLite's BINARY collation on text: lexicographic order of the characters. */
  predicate Less(a: string, b: string)
  {
    b != [] && (a == [] || a[0] < b[0] || (a[0] == b[0] && Less(a[1..], b[1..])))
  }

  lemma {:induction false} LessTotal(a: string, b: string)
    ensures Less(a, b) || a == b || Less(b, a)
    ensures !(Less(a, b) && Less(b, a)) && !Less(a, a)
  {
    if a != [] && b != [] {
      assert a == [a[0]] + a[1..] && b == [b[0]] + b[1..];
      LessTotal(a[1..], b[1..]);
      LessTotal(a[1..], a[1..]);
    } else if a != [] {
      LessTotal(a[1..], a[1..]);
    }
  }

  lemma {:induction false} LessTransitive(a: string, b: string, c: string)
    requires Less(a, b) && Less(b, c)
    ensures Less(a, c)
  {
    if a != [] && a[0] == b[0] == c[0] {
      LessTransitive(a[1..], b[1..], c[1..]);
    }
  }
}
