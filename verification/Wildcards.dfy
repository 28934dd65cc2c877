/**
  Topic patterns and their SQL form. An access control entry is stored as an SQLite LIKE pattern;
  this module relates that pattern to the glob the administrator wrote.
 */
module Wildcards {
  import opened Text

  predicate TopicChar(c: char)
  {
    c == '-' || c == '_' || 'A' <= c <= 'Z' || 'a' <= c <= 'z' || '0' <= c <= '9'
  }

  predicate AllowedTopic(t: string)
  {
    1 <= |t| <= 64 && forall i :: 0 <= i < |t| ==> TopicChar(t[i])
  }

  predicate AllowedTopicPattern(p: string)
  {
    1 <= |p| <= 64 && forall i :: 0 <= i < |p| ==> TopicChar(p[i]) || p[i] == '*'
  }

  predicate AllowedUsername(u: string)
  {
    1 <= |u| && forall i :: 0 <= i < |u| ==> TopicChar(u[i]) || u[i] == '.' || u[i] == '+' || u[i] == '@'
  }

  function EscapeUnderscore(s: string): string { Escape(s, '_') }

  function UnescapeUnderscore(s: string): string { Unescape(s, '_') }

  function ToSQLWildcard(s: string): string { EscapeUnderscore(ReplaceAll(s, "*", "%")) }

  function FromSQLWildcard(s: string): string { ReplaceAll(UnescapeUnderscore(s), "%", "*") }

  // ---------- LIKE and glob ----------

  /** `t LIKE p ESCAPE '\'` in SQLite, which folds ASCII case. A trailing escape matches nothing. */
  predicate Like(t: string, p: string)
    decreases |p|, |t|
  {
    if p == [] then t == []
    else if p[0] == '%' then Like(t, p[1..]) || (t != [] && Like(t[1..], p))
    else if p[0] == '_' then t != [] && Like(t[1..], p[1..])
    else if p[0] == '\\' then |p| >= 2 && t != [] && Fold(t[0]) == Fold(p[1]) && Like(t[1..], p[2..])
    else t != [] && Fold(t[0]) == Fold(p[0]) && Like(t[1..], p[1..])
  }

  /** One character of a glob against the stretch of text it is aligned with. */
  predicate Aligned(c: char, piece: string)
  {
    c == '*' || (|piece| == 1 && Fold(piece[0]) == Fold(c))
  }

  /** `pieces` cuts `t` into one stretch per pattern character, each aligned with its character. */
  ghost predicate Alignment(p: string, t: string, pieces: seq<string>)
  {
    && |pieces| == |p|
    && Flatten(pieces) == t
    && forall i :: 0 <= i < |p| ==> Aligned(p[i], pieces[i])
  }

  ghost predicate Glob(p: string, t: string)
  {
    exists pieces :: Alignment(p, t, pieces)
  }

  // ---------- character by character ----------

  /** What one pattern character becomes in the stored form. */
  function SQLChar(c: char): string
  {
    if c == '*' then "%" else if c == '_' then "\\_" else [c]
  }

  lemma ToSQLCons(c: char, s: string)
    ensures ToSQLWildcard([c] + s) == SQLChar(c) + ToSQLWildcard(s)
  {
    ReplaceCons(c, s, '*', "%");
    EscapeCons(if c == '*' then '%' else c, ReplaceAll(s, "*", "%"), '_');
  }

  // ---------- LIKE is glob ----------

  predicate NoSQLChars(p: string)
  {
    '%' !in p && '\\' !in p
  }

  lemma {:induction false} GlobFromPieces(p: string, t: string, pieces: seq<string>)
    requires NoSQLChars(p) && Alignment(p, t, pieces)
    ensures Like(t, ToSQLWildcard(p))
    decreases |p|, |t|
  {
    if p != [] {
      var rest := Flatten(pieces[1..]);
      assert p == [p[0]] + p[1..] && t == pieces[0] + rest;
      ToSQLCons(p[0], p[1..]);
      var sql := ToSQLWildcard(p);
      var tail := ToSQLWildcard(p[1..]);
      if p[0] == '*' && pieces[0] != [] {
        var shorter := [pieces[0][1..]] + pieces[1..];
        assert shorter[1..] == pieces[1..];
        assert Flatten(shorter) == t[1..];
        assert Alignment(p, t[1..], shorter);
        GlobFromPieces(p, t[1..], shorter);
      } else {
        assert Alignment(p[1..], rest, pieces[1..]);
        GlobFromPieces(p[1..], rest, pieces[1..]);
        assert sql[|SQLChar(p[0])|..] == tail;
        if p[0] != '*' { assert t[1..] == rest; } else { assert t == rest; }
      }
    }
  }

  lemma {:induction false} PiecesFromLike(p: string, t: string) returns (pieces: seq<string>)
    requires NoSQLChars(p) && Like(t, ToSQLWildcard(p))
    ensures Alignment(p, t, pieces)
    decreases |p|, |t|
  {
    if p == [] {
      pieces := [];
    } else {
      assert p == [p[0]] + p[1..];
      ToSQLCons(p[0], p[1..]);
      var sql := ToSQLWildcard(p);
      assert sql[|SQLChar(p[0])|..] == ToSQLWildcard(p[1..]);
      var head: string;
      var rest: seq<string>;
      if p[0] == '*' && !Like(t, ToSQLWildcard(p[1..])) {
        var deeper := PiecesFromLike(p, t[1..]);
        head, rest := [t[0]] + deeper[0], deeper[1..];
      } else if p[0] == '*' {
        rest := PiecesFromLike(p[1..], t);
        head := [];
      } else {
        rest := PiecesFromLike(p[1..], t[1..]);
        head := [t[0]];
      }
      pieces := [head] + rest;
      assert pieces[1..] == rest;
    }
  }

  /** The stored pattern selects exactly the topics the glob describes. */
  lemma LikeIsGlob(p: string, t: string)
    requires NoSQLChars(p)
    ensures Like(t, ToSQLWildcard(p)) <==> Glob(p, t)
  {
    if Like(t, ToSQLWildcard(p)) {
      var pieces := PiecesFromLike(p, t);
    }
    if Glob(p, t) {
      var pieces :| Alignment(p, t, pieces);
      GlobFromPieces(p, t, pieces);
    }
  }

  lemma AllowedHasNoSQLChars(p: string)
    requires AllowedTopicPattern(p) || AllowedTopic(p)
    ensures NoSQLChars(p)
  {
  }

  // ---------- round trips ----------

  /** Replacing `*` by `%` and back is the identity exactly on strings without `%`. */
  lemma {:induction false} StarPercentStar(s: string)
    ensures ReplaceAll(ReplaceAll(s, "*", "%"), "%", "*") == s <==> '%' !in s
    ensures |ReplaceAll(ReplaceAll(s, "*", "%"), "%", "*")| == |s|
  {
    if s != [] {
      assert s == [s[0]] + s[1..];
      StarPercentStar(s[1..]);
      ReplaceCons(s[0], s[1..], '*', "%");
      var c := if s[0] == '*' then '%' else s[0];
      ReplaceCons(c, ReplaceAll(s[1..], "*", "%"), '%', "*");
      assert '%' in s <==> s[0] == '%' || '%' in s[1..];
      var back := ReplaceAll(ReplaceAll(s, "*", "%"), "%", "*");
      assert back[1..] == ReplaceAll(ReplaceAll(s[1..], "*", "%"), "%", "*");
    }
  }

  /** A pattern is reported back as it was granted exactly when it contains no `%`. */
  lemma FromToSQLWildcard(p: string)
    ensures FromSQLWildcard(ToSQLWildcard(p)) == p <==> '%' !in p
  {
    UnescapeEscape(ReplaceAll(p, "*", "%"), '_');
    StarPercentStar(p);
  }

  /** Topics contain no `*`, so reservations and grants agree on the stored form. */
  lemma {:induction false} TopicSQLForm(t: string)
    requires '*' !in t
    ensures ToSQLWildcard(t) == EscapeUnderscore(t)
  {
    NoStar(t);
  }

  lemma {:induction false} NoStar(t: string)
    requires '*' !in t
    ensures ReplaceAll(t, "*", "%") == t
  {
    if t != [] {
      assert t == [t[0]] + t[1..];
      ReplaceCons(t[0], t[1..], '*', "%");
      NoStar(t[1..]);
    }
  }
}
