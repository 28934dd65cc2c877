/**
  Single sections of the simple action format: how a `key = "value"` pair may be written, and what
  the parser makes of it, of a value without quotes, and of a value that does not end properly.
 */
module ActionSections {
  import opened Text
  import opened ActionSyntax

  type Pair = (string, string)

  predicate QuoteMark(q: char) { q == '"' || q == '\'' }

  /** How a pair is written: the quote around its value, and the spaces before the key, on both sides
      of the equals sign and after the closing quote. */
  datatype Layout = Layout(quote: char, lead: string, left: string, right: string, trail: string)

  datatype Item = Item(pair: Pair, layout: Layout)

  predicate Spaces(sp: string) { forall i | 0 <= i < |sp| :: IsSpace(sp[i]) }

  /** Around the equals sign a form feed passes for a space, too. */
  predicate WideSpaces(sp: string) { forall i | 0 <= i < |sp| :: IsRegexSpace(sp[i]) }

  /** Which runes these are. */
  lemma SpaceRunes(c: char)
    ensures IsSpace(c) <==> c in " \t\r\n"
    ensures IsRegexSpace(c) <==> c in " \t\r\n\U{000C}"
  {
  }

  predicate ValidLayout(l: Layout)
  {
    QuoteMark(l.quote) && Spaces(l.lead) && WideSpaces(l.left) && WideSpaces(l.right) && Spaces(l.trail)
  }

  function Quote(v: string, q: char): string { [q] + (Escape(v, q) + [q]) }

  function PrintValue(p: Item): string { Quote(p.pair.1, p.layout.quote) + p.layout.trail }

  function PrintAssignment(p: Item): string { p.layout.left + ("=" + (p.layout.right + PrintValue(p))) }

  function PrintItem(p: Item): string { p.layout.lead + (p.pair.0 + PrintAssignment(p)) }

  predicate ValidKey(k: string)
  {
    k != [] && forall i | 0 <= i < |k| :: IsKeyChar(k[i])
  }

  /** No NUL, and not ending in a backslash. */
  predicate Printable(v: string)
  {
    EOF !in v && (v == [] || v[|v| - 1] != '\\')
  }

  predicate PrintablePair(p: Pair) { ValidKey(p.0) && Printable(p.1) }

  predicate PrintableItem(p: Item) { PrintablePair(p.pair) && ValidLayout(p.layout) }

  // ---------- texts at a position ----------

  /** `s` continues with `t` at `pos`. */
  predicate At(s: string, pos: nat, t: string)
  {
    pos <= |s| && t <= s[pos..]
  }

  lemma AtPoint(s: string, pos: nat, t: string, i: nat)
    requires At(s, pos, t) && i < |t|
    ensures pos + i < |s| && s[pos + i] == t[i]
  {
  }

  lemma AtSplit(s: string, pos: nat, a: string, b: string)
    requires At(s, pos, a + b)
    ensures At(s, pos, a) && At(s, pos + |a|, b)
  {
  }

  lemma AtJoin(s: string, pos: nat, a: string, sep: char, b: string)
    requires At(s, pos, a + [sep] + b)
    ensures At(s, pos, a) && pos + |a| < |s| && s[pos + |a|] == sep && At(s, pos + |a| + 1, b)
  {
  }

  lemma AtSlice(s: string, pos: nat, t: string)
    requires At(s, pos, t)
    ensures pos + |t| <= |s| && s[pos..pos + |t|] == t
  {
  }

  /** The first rune of a text and the rest of it. */
  lemma AtCons(s: string, pos: nat, t: string)
    requires At(s, pos, t) && t != []
    ensures pos < |s| && s[pos] == t[0] && At(s, pos + 1, t[1..])
  {
    assert t == [t[0]] + t[1..];
    AtSplit(s, pos, [t[0]], t[1..]);
    AtPoint(s, pos, t, 0);
  }

  lemma {:induction false} SpacesSkipped(s: string, pos: nat, sp: string)
    requires At(s, pos, sp) && Spaces(sp) && !IsSpace(Peek(s, pos + |sp|))
    ensures SkipSpaces(s, pos) == pos + |sp|
    decreases |sp|
  {
    if sp != [] {
      AtCons(s, pos, sp);
      SpacesSkipped(s, pos + 1, sp[1..]);
    }
  }

  lemma {:induction false} WideSpacesSkipped(s: string, pos: nat, sp: string)
    requires At(s, pos, sp) && WideSpaces(sp) && !IsRegexSpace(Peek(s, pos + |sp|))
    ensures SkipRegexSpaces(s, pos) == pos + |sp|
    decreases |sp|
  {
    if sp != [] {
      AtCons(s, pos, sp);
      WideSpacesSkipped(s, pos + 1, sp[1..]);
    }
  }

  lemma {:induction false} KeyCharsEnd(s: string, pos: nat, k: string)
    requires At(s, pos, k) && forall i | 0 <= i < |k| :: IsKeyChar(k[i])
    requires !IsKeyChar(Peek(s, pos + |k|))
    ensures SkipKeyChars(s, pos) == pos + |k|
    decreases |k|
  {
    if k != [] {
      AtCons(s, pos, k);
      KeyCharsEnd(s, pos + 1, k[1..]);
    }
  }

  // ---------- quoted values ----------

  /** Scanning an escaped text up to its last rune finds no quote. */
  lemma EscapedQuoteSkipped(s: string, pos: nat, prev: char, q: char)
    requires At(s, pos, ['\\', q]) && QuoteMark(q)
    ensures QuoteEnd(s, pos, prev, q) == QuoteEnd(s, pos + 2, q, q)
  {
    AtPoint(s, pos, ['\\', q], 0);
    AtPoint(s, pos, ['\\', q], 1);
    assert QuoteEnd(s, pos, prev, q) == QuoteEnd(s, pos + 1, '\\', q);
  }

  lemma {:induction false} QuoteEndSkips(s: string, pos: nat, prev: char, v: string, q: char)
    requires At(s, pos, Escape(v, q)) && EOF !in v && QuoteMark(q)
    ensures QuoteEnd(s, pos, prev, q) == QuoteEnd(s, pos + |Escape(v, q)|, if v == [] then prev else v[|v| - 1], q)
    decreases |v|
  {
    if v != [] {
      var e := Escape(v[1..], q);
      assert v == [v[0]] + v[1..];
      EscapeCons(v[0], v[1..], q);
      assert v[0] != EOF && EOF !in v[1..];
      if v[0] == q {
        AtSplit(s, pos, ['\\', q], e);
        EscapedQuoteSkipped(s, pos, prev, q);
        QuoteEndSkips(s, pos + 2, q, v[1..], q);
      } else {
        AtSplit(s, pos, [v[0]], e);
        AtPoint(s, pos, [v[0]], 0);
        QuoteEndSkips(s, pos + 1, v[0], v[1..], q);
      }
    }
  }

  /** Where the parts of a quoted value are. */
  lemma QuoteAt(s: string, pos: nat, v: string, q: char)
    requires At(s, pos, Quote(v, q))
    ensures At(s, pos + 1, Escape(v, q)) && pos + 1 + |Escape(v, q)| < |s|
    ensures s[pos] == q && s[pos + 1 + |Escape(v, q)|] == q && |Quote(v, q)| == |Escape(v, q)| + 2
  {
    AtSplit(s, pos, [q], Escape(v, q) + [q]);
    AtSplit(s, pos + 1, Escape(v, q), [q]);
    AtPoint(s, pos, [q], 0);
    AtPoint(s, pos + 1 + |Escape(v, q)|, [q], 0);
  }

  /** A quoted value and spaces after it. */
  predicate QuotedAt(s: string, pos: nat, v: string, q: char, trail: string)
  {
    At(s, pos, Quote(v, q)) && QuoteMark(q) && At(s, pos + |Quote(v, q)|, trail) && Spaces(trail)
  }

  /** What follows a printed value: the end of the input or of the section. */
  predicate EndsSection(s: string, pos: nat)
  {
    pos <= |s| && IsSectionEnd(Peek(s, pos))
  }

  lemma ClosingQuote(s: string, pos: nat, v: string, q: char)
    requires At(s, pos, Quote(v, q)) && Printable(v) && QuoteMark(q)
    ensures var close := pos + 1 + |Escape(v, q)|;
      close < |s| && QuoteEnd(s, pos + 1, EOF, q) == Some(close) && Unescape(s[pos + 1..close], q) == v
  {
    QuoteAt(s, pos, v, q);
    QuoteEndSkips(s, pos + 1, EOF, v, q);
    AtSlice(s, pos + 1, Escape(v, q));
    UnescapeEscape(v, q);
  }

  /** A value whose closing quote is found: spaces are skipped, and then the section must end. */
  lemma QuotedEnds(s: string, pos: nat, close: nat, v: string, q: char, next: nat, key: string)
    requires pos + 1 <= close < |s| && QuoteEnd(s, pos + 1, EOF, q) == Some(close)
    requires Unescape(s[pos + 1..close], q) == v && SkipSpaces(s, close + 1) == next
    ensures ParseQuotedValue(s, pos, q, key)
         == if IsSectionEnd(Peek(s, next)) then Section(key, v, IsLastSection(Peek(s, next)), next + Width(s, next))
            else Failed(UnexpectedCharacter(Peek(s, next), next))
  {
  }

  /** A quoted value followed by spaces is read back if the section ends there; any other rune is
      an error at its position. */
  lemma QuotedValueParses(s: string, pos: nat, v: string, q: char, trail: string, key: string)
    requires QuotedAt(s, pos, v, q, trail) && Printable(v)
    requires var end := pos + |Quote(v, q)| + |trail|; !IsSpace(Peek(s, end))
    ensures pos < |s|
    ensures var end := pos + |Quote(v, q)| + |trail|;
      ParseQuotedValue(s, pos, q, key)
      == if IsSectionEnd(Peek(s, end)) then Section(key, v, IsLastSection(Peek(s, end)), end + Width(s, end))
         else Failed(UnexpectedCharacter(Peek(s, end), end))
  {
    QuoteAt(s, pos, v, q);
    ClosingQuote(s, pos, v, q);
    var close := pos + 1 + |Escape(v, q)|;
    SpacesSkipped(s, close + 1, trail);
    QuotedEnds(s, pos, close, v, q, close + 1 + |trail|, key);
  }

  lemma {:induction false} QuoteEndStopsAtNul(s: string, pos: nat, prev: char, v: string, q: char)
    requires At(s, pos, Escape(v, q)) && EOF in v && QuoteMark(q)
    ensures QuoteEnd(s, pos, prev, q).None?
    decreases |v|
  {
    var e := Escape(v[1..], q);
    assert v == [v[0]] + v[1..];
    EscapeCons(v[0], v[1..], q);
    if v[0] == q {
      AtSplit(s, pos, ['\\', q], e);
      AtPoint(s, pos, ['\\', q], 0);
      AtPoint(s, pos, ['\\', q], 1);
      assert QuoteEnd(s, pos, prev, q) == QuoteEnd(s, pos + 1, '\\', q);
      QuoteEndStopsAtNul(s, pos + 2, q, v[1..], q);
    } else {
      AtSplit(s, pos, [v[0]], e);
      AtPoint(s, pos, [v[0]], 0);
      if v[0] != EOF { QuoteEndStopsAtNul(s, pos + 1, v[0], v[1..], q); }
    }
  }

  /** A value that is never closed is an error that names the position after its opening quote. */
  lemma UnclosedValue(s: string, pos: nat, v: string, q: char, key: string)
    requires pos < |s| && s[pos] == q && QuoteMark(q)
    requires At(s, pos + 1, Escape(v, q)) && (EOF in v || pos + 1 + |Escape(v, q)| == |s|)
    ensures ParseQuotedValue(s, pos, q, key) == Failed(UnexpectedEnd(pos + 1))
  {
    if EOF in v {
      QuoteEndStopsAtNul(s, pos + 1, EOF, v, q);
    } else {
      QuoteEndSkips(s, pos + 1, EOF, v, q);
    }
  }

  lemma {:induction false} EscapeSnoc(v: string, c: char, q: char)
    requires c != q
    ensures Escape(v + [c], q) == Escape(v, q) + [c]
  {
    if v == [] {
      assert v + [c] == [c] + [];
      EscapeCons(c, [], q);
    } else {
      assert v + [c] == [v[0]] + (v[1..] + [c]) && v == [v[0]] + v[1..];
      EscapeCons(v[0], v[1..] + [c], q);
      EscapeCons(v[0], v[1..], q);
      EscapeSnoc(v[1..], c, q);
    }
  }

  lemma SwallowedText(s: string, start: nat, close: nat, end: nat, before: string, q: char)
    requires start <= close < end <= |s| && s[start..close] == before + ['\\'] && s[close] == q
    ensures s[start..end] == before + (['\\', q] + s[close + 1..end])
  {
    assert s[start..end] == s[start..close] + [s[close]] + s[close + 1..end];
    assert s[start..end] == before + ['\\'] + [q] + s[close + 1..end];
  }

  lemma SwallowedQuote(init: string, more: string, q: char)
    requires QuoteMark(q)
    ensures var r := Unescape(Escape(init, q) + (['\\', q] + more), q); |r| > |init| && r[|init|] == q
  {
    UnescapeEscapeThen(init, ['\\', q] + more, q);
    UnescapePair(more, q);
  }

  /** A value ending in a backslash swallows its closing quote: what is read has the quote where
      the value has the backslash. */
  lemma TrailingBackslashSwallowsQuote(s: string, pos: nat, v: string, q: char, key: string)
    requires At(s, pos, Quote(v, q)) && QuoteMark(q) && EOF !in v && v != [] && v[|v| - 1] == '\\'
    ensures pos < |s|
    ensures var r := ParseQuotedValue(s, pos, q, key); r.Section? ==> r.value != v
  {
    QuoteAt(s, pos, v, q);
    var e := Escape(v, q);
    var close := pos + 1 + |e|;
    QuoteEndSkips(s, pos + 1, EOF, v, q);
    assert QuoteEnd(s, pos + 1, EOF, q) == QuoteEnd(s, close + 1, q, q);
    var end := QuoteEnd(s, close + 1, q, q);
    if end.Some? {
      var init, more := v[..|v| - 1], s[close + 1..end.value];
      assert v == init + ['\\'];
      EscapeSnoc(init, '\\', q);
      AtSlice(s, pos + 1, e);
      SwallowedText(s, pos + 1, close, end.value, Escape(init, q), q);
      SwallowedQuote(init, more, q);
    }
  }

  /** In either kind of quotes and followed by any spaces, a value is read back exactly when it has no
      NUL and no trailing backslash. */
  lemma QuotedValueExact(s: string, pos: nat, v: string, q: char, trail: string, key: string)
    requires QuotedAt(s, pos, v, q, trail)
    requires EndsSection(s, pos + |Quote(v, q)| + |trail|)
    ensures pos < |s|
    ensures (var r := ParseQuotedValue(s, pos, q, key); r.Section? && r.value == v) <==> Printable(v)
  {
    QuoteAt(s, pos, v, q);
    if Printable(v) {
      QuotedValueParses(s, pos, v, q, trail, key);
    } else if EOF in v {
      QuoteEndStopsAtNul(s, pos + 1, EOF, v, q);
    } else {
      TrailingBackslashSwallowsQuote(s, pos, v, q, key);
    }
  }

  // ---------- items ----------

  /** Where the equals sign of a printed item is, and where its value starts. */
  function EqualsAt(pos: nat, p: Item): nat { pos + |p.layout.lead| + |p.pair.0| + |p.layout.left| }

  function ValueAt(pos: nat, p: Item): nat { EqualsAt(pos, p) + 1 + |p.layout.right| }

  lemma ItemKeyAt(s: string, pos: nat, p: Item)
    requires At(s, pos, PrintItem(p))
    ensures At(s, pos, p.layout.lead) && At(s, pos + |p.layout.lead|, p.pair.0)
    ensures At(s, pos + |p.layout.lead| + |p.pair.0|, PrintAssignment(p))
  {
    AtSplit(s, pos, p.layout.lead, p.pair.0 + PrintAssignment(p));
    AtSplit(s, pos + |p.layout.lead|, p.pair.0, PrintAssignment(p));
  }

  lemma ItemValueAt(s: string, pos: nat, p: Item)
    requires At(s, pos, PrintAssignment(p))
    ensures var e := pos + |p.layout.left|;
      && At(s, pos, p.layout.left) && e < |s| && s[e] == '='
      && At(s, e + 1, p.layout.right) && At(s, e + 1 + |p.layout.right|, PrintValue(p))
  {
    var e := pos + |p.layout.left|;
    AtSplit(s, pos, p.layout.left, "=" + (p.layout.right + PrintValue(p)));
    AtSplit(s, e, "=", p.layout.right + PrintValue(p));
    AtPoint(s, e, "=", 0);
    AtSplit(s, e + 1, p.layout.right, PrintValue(p));
  }

  /** After spaces, or at once, stands a rune that is no key character. */
  lemma AfterSpaces(s: string, pos: nat, sp: string, c: char)
    requires At(s, pos, sp) && WideSpaces(sp) && pos + |sp| < |s| && s[pos + |sp|] == c && !IsKeyChar(c)
    ensures !IsKeyChar(Peek(s, pos))
  {
    if sp != [] { AtCons(s, pos, sp); }
  }

  lemma KeyMatches(s: string, k: nat, key: string, eq: nat, v: nat)
    requires At(s, k, key) && key != [] && SkipKeyChars(s, k) == k + |key|
    requires SkipRegexSpaces(s, k + |key|) == eq && eq < |s| && s[eq] == '=' && SkipRegexSpaces(s, eq + 1) == v
    ensures ParseKey(s, k) == (key, v)
  {
    AtSlice(s, k, key);
  }

  /** A key, spaces, an equals sign and spaces are matched as a whole. */
  lemma AssignmentMatches(s: string, k: nat, key: string, left: string, right: string, v: nat)
    requires At(s, k, key) && ValidKey(key) && At(s, k + |key|, left) && WideSpaces(left)
    requires var e := k + |key| + |left|; e < |s| && s[e] == '=' && At(s, e + 1, right) && v == e + 1 + |right|
    requires WideSpaces(right) && v < |s| && QuoteMark(s[v])
    ensures ParseKey(s, k) == (key, v)
  {
    var e := k + |key| + |left|;
    AfterSpaces(s, k + |key|, left, '=');
    KeyCharsEnd(s, k, key);
    WideSpacesSkipped(s, k + |key|, left);
    WideSpacesSkipped(s, e + 1, right);
    KeyMatches(s, k, key, e, v);
  }

  lemma KeyAfterSpaces(s: string, pos: nat, lead: string, key: string, v: nat)
    requires At(s, pos, lead) && Spaces(lead) && pos + |lead| < |s| && IsKeyChar(s[pos + |lead|])
    requires ParseKey(s, pos + |lead|) == (key, v)
    ensures ParseKey(s, SkipSpaces(s, pos)) == (key, v)
  {
    SpacesSkipped(s, pos, lead);
  }

  /** Where the parts of a printed item are. */
  lemma ItemParts(s: string, pos: nat, p: Item)
    requires At(s, pos, PrintItem(p))
    ensures var l, key := p.layout, p.pair.0;
      var k, e, v := pos + |l.lead|, EqualsAt(pos, p), ValueAt(pos, p);
      && At(s, pos, l.lead) && At(s, k, key) && At(s, k + |key|, l.left) && e < |s| && s[e] == '='
      && At(s, e + 1, l.right) && At(s, v, Quote(p.pair.1, l.quote)) && v < |s| && s[v] == l.quote
      && At(s, v + |Quote(p.pair.1, l.quote)|, l.trail)
  {
    ItemKeyAt(s, pos, p);
    ItemValueAt(s, pos + |p.layout.lead| + |p.pair.0|, p);
    AtSplit(s, ValueAt(pos, p), Quote(p.pair.1, p.layout.quote), p.layout.trail);
    QuoteAt(s, ValueAt(pos, p), p.pair.1, p.layout.quote);
  }

  lemma ItemKeyParses(s: string, pos: nat, p: Item)
    requires At(s, pos, PrintItem(p)) && ValidKey(p.pair.0) && ValidLayout(p.layout)
    ensures ParseKey(s, SkipSpaces(s, pos)) == (p.pair.0, ValueAt(pos, p))
  {
    ItemParts(s, pos, p);
    AtPoint(s, pos + |p.layout.lead|, p.pair.0, 0);
    SpacedKeyParses(s, pos, p.layout, p.pair.0, pos + |p.layout.lead|, ValueAt(pos, p));
  }

  lemma SpacedKeyParses(s: string, pos: nat, l: Layout, key: string, k: nat, v: nat)
    requires At(s, pos, l.lead) && k == pos + |l.lead| < |s| && At(s, k, key) && At(s, k + |key|, l.left)
    requires var e := k + |key| + |l.left|;
      e < |s| && s[e] == '=' && At(s, e + 1, l.right) && v == e + 1 + |l.right| < |s|
    requires ValidKey(key) && s[k] == key[0] && s[v] == l.quote && ValidLayout(l)
    ensures ParseKey(s, SkipSpaces(s, pos)) == (key, v)
  {
    AssignmentMatches(s, k, key, l.left, l.right, v);
    KeyAfterSpaces(s, pos, l.lead, key, v);
  }

  /** A section whose value starts with a quote. */
  lemma QuotedSection(s: string, pos: nat, key: string, q: nat)
    requires pos <= |s| && ParseKey(s, SkipSpaces(s, pos)) == (key, q) && q < |s| && QuoteMark(s[q])
    ensures ParseSection(s, pos) == ParseQuotedValue(s, q, s[q], key)
  {
  }

  lemma ItemLength(pos: nat, p: Item)
    ensures pos + |PrintItem(p)| == ValueAt(pos, p) + |Quote(p.pair.1, p.layout.quote)| + |p.layout.trail|
  {
  }

  /** A section of which the key has been matched and the value is quoted. */
  lemma ValueParses(s: string, pos: nat, key: string, v: string, q: char, trail: string, at: nat, end: nat)
    requires pos <= |s| && ParseKey(s, SkipSpaces(s, pos)) == (key, at) && at < |s| && s[at] == q
    requires QuotedAt(s, at, v, q, trail) && Printable(v)
    requires end == at + |Quote(v, q)| + |trail| && EndsSection(s, end)
    ensures ParseSection(s, pos) == Section(key, v, IsLastSection(Peek(s, end)), end + Width(s, end))
  {
    QuotedSection(s, pos, key, at);
    QuotedValueParses(s, at, v, q, trail, key);
  }

  /** A printed pair is read back as that pair, in either kind of quotes and with any spaces. */
  lemma PairParses(s: string, pos: nat, p: Item)
    requires At(s, pos, PrintItem(p)) && PrintableItem(p) && EndsSection(s, pos + |PrintItem(p)|)
    ensures var end := pos + |PrintItem(p)|;
      ParseSection(s, pos) == Section(p.pair.0, p.pair.1, IsLastSection(Peek(s, end)), end + Width(s, end))
  {
    ItemParts(s, pos, p);
    ItemKeyParses(s, pos, p);
    ItemLength(pos, p);
    ValueParses(s, pos, p.pair.0, p.pair.1, p.layout.quote, p.layout.trail, ValueAt(pos, p), pos + |PrintItem(p)|);
  }

  // ---------- values without quotes ----------

  predicate Padding(sp: string) { forall i | 0 <= i < |sp| :: IsUnicodeSpace(sp[i]) }

  /** A value that can stand without quotes. */
  predicate Bare(v: string)
  {
    && (forall i | 0 <= i < |v| :: !IsSectionEnd(v[i]))
    && (v != [] ==> !QuoteMark(v[0]) && !IsUnicodeSpace(v[0]) && !IsUnicodeSpace(v[|v| - 1]))
  }

  lemma {:induction false} TrimLeftPads(sp: string, v: string)
    requires Padding(sp) && (v == [] || !IsUnicodeSpace(v[0]))
    ensures TrimLeft(sp + v) == v
  {
    if sp == [] {
      assert sp + v == v;
    } else {
      assert (sp + v)[1..] == sp[1..] + v && (sp + v)[0] == sp[0];
      TrimLeftPads(sp[1..], v);
    }
  }

  lemma {:induction false} TrimRightPads(v: string, sp: string)
    requires Padding(sp) && (v == [] || !IsUnicodeSpace(v[|v| - 1]))
    ensures TrimRight(v + sp) == v
  {
    if sp == [] {
      assert v + sp == v;
    } else {
      var n := |sp| - 1;
      TrimRightPads(v, sp[..n]);
      assert sp == sp[..n] + [sp[n]];
      ConcatAssociative(v, sp[..n], [sp[n]]);
      TrimRightOne(v + sp[..n], sp[n]);
    }
  }

  lemma TrimRightOne(t: string, c: char)
    requires IsUnicodeSpace(c)
    ensures TrimRight(t + [c]) == TrimRight(t)
  {
    assert (t + [c])[..|t|] == t;
  }

  /** Trimming takes the padding off both ends and nothing else. */
  lemma Trimmed(before: string, v: string, after: string)
    requires Padding(before) && Padding(after) && Bare(v)
    ensures TrimSpace(before + (v + after)) == v
  {
    if v == [] {
      assert before + (v + after) == (before + after) + [];
      TrimLeftPads(before + after, []);
    } else {
      assert (v + after)[0] == v[0];
      TrimLeftPads(before, v + after);
      TrimRightPads(v, after);
    }
  }

  lemma {:induction false} SectionEndOf(s: string, pos: nat, v: string)
    requires At(s, pos, v) && EndsSection(s, pos + |v|) && forall i | 0 <= i < |v| :: !IsSectionEnd(v[i])
    ensures SectionEnd(s, pos) == pos + |v|
    decreases |v|
  {
    if v != [] {
      AtCons(s, pos, v);
      SectionEndOf(s, pos + 1, v[1..]);
    }
  }

  /** What the parser does with the text after an optional key if it is not quoted. */
  lemma UnquotedSection(s: string, pos: nat, key: string, p: nat, text: string)
    requires pos <= |s| && ParseKey(s, SkipSpaces(s, pos)) == (key, p)
    requires At(s, p, text) && EndsSection(s, p + |text|) && forall i | 0 <= i < |text| :: !IsSectionEnd(text[i])
    requires text == [] || !QuoteMark(text[0])
    ensures var end := p + |text|;
      ParseSection(s, pos) == Section(key, TrimSpace(text), IsLastSection(Peek(s, end)), end + Width(s, end))
  {
    if text == [] {
      assert TrimSpace(text) == [];
    } else {
      AtCons(s, p, text);
      SectionEndOf(s, p, text);
      AtSlice(s, p, text);
    }
  }

  /** After an optional key a value without quotes, empty or not, is read without its padding. */
  lemma BareSectionParses(s: string, pos: nat, key: string, before: string, v: string, after: string)
    requires pos <= |s| && ParseKey(s, SkipSpaces(s, pos)).0 == key
    requires Padding(before) && Bare(v) && Padding(after)
    requires var p := ParseKey(s, SkipSpaces(s, pos)).1;
      At(s, p, before + (v + after)) && EndsSection(s, p + |before| + |v| + |after|)
    ensures var end := ParseKey(s, SkipSpaces(s, pos)).1 + |before| + |v| + |after|;
      ParseSection(s, pos) == Section(key, v, IsLastSection(Peek(s, end)), end + Width(s, end))
  {
    var text := before + (v + after);
    Trimmed(before, v, after);
    PaddedText(before, v, after);
    UnquotedSection(s, pos, key, ParseKey(s, SkipSpaces(s, pos)).1, text);
  }

  lemma PaddedText(before: string, v: string, after: string)
    requires Padding(before) && Bare(v) && Padding(after)
    ensures var text := before + (v + after);
      (forall i | 0 <= i < |text| :: !IsSectionEnd(text[i])) && (text == [] || !QuoteMark(text[0]))
  {
    var text := before + (v + after);
    forall i | 0 <= i < |text| ensures !IsSectionEnd(text[i]) {
      if i < |before| {
        assert text[i] == before[i];
      } else if i < |before| + |v| {
        assert text[i] == v[i - |before|];
      } else {
        assert text[i] == after[i - |before| - |v|];
      }
    }
    if text != [] {
      assert text[0] == if before != [] then before[0] else if v != [] then v[0] else after[0];
    }
  }
}
