/**
  A printer for lists of actions in the simple action format, with any layout, and its round trip
  through the parser.
 */
module ActionRoundTrip {
  import opened Text
  import opened ActionSyntax
  import opened ActionSections

  // ---------- printer ----------

  function PrintItems(ps: seq<Item>): string
    requires ps != []
  {
    if |ps| == 1 then PrintItem(ps[0]) else PrintItem(ps[0]) + [','] + PrintItems(ps[1..])
  }

  function PrintAll(lists: seq<seq<Item>>): string
    requires forall i | 0 <= i < |lists| :: lists[i] != []
  {
    if lists == [] then "" else if |lists| == 1 then PrintItems(lists[0])
    else PrintItems(lists[0]) + [';'] + PrintAll(lists[1..])
  }

  predicate PrintableItems(ps: seq<Item>)
  {
    ps != [] && forall i | 0 <= i < |ps| :: PrintableItem(ps[i])
  }

  predicate AllPrintable(lists: seq<seq<Item>>)
  {
    forall i | 0 <= i < |lists| :: PrintableItems(lists[i])
  }

  function PairsOf(ps: seq<Item>): seq<Pair>
  {
    seq(|ps|, i requires 0 <= i < |ps| => ps[i].pair)
  }

  function AllPairs(lists: seq<seq<Item>>): seq<seq<Pair>>
  {
    seq(|lists|, i requires 0 <= i < |lists| => PairsOf(lists[i]))
  }

  // ---------- sections of an action ----------

  /** Applying pairs in order, as sections `n`, `n + 1` and so on. */
  function PopulateAll(a: Action, n: nat, ps: seq<Pair>): Populated
    decreases |ps|
  {
    if ps == [] then Populated(a)
    else
      var b := PopulateAction(a, n, ps[0].0, ps[0].1);
      if b.Rejected? then b else PopulateAll(b.action, n + 1, ps[1..])
  }

  /** The sections of one action, before any is interpreted. */
  datatype Split = Split(pairs: seq<Pair>, pos: nat) | Broken

  function SplitSections(s: string, pos: nat): (r: Split)
    requires pos <= |s|
    ensures r.Split? ==> r.pairs != [] && pos <= r.pos <= |s| && (pos < |s| ==> pos < r.pos)
    decreases |s| - pos
  {
    var sec := ParseSection(s, pos);
    if sec.Failed? then Broken
    else
      var next := SkipSpaces(s, sec.pos);
      if sec.last then Split([(sec.key, sec.value)], next)
      else
        var rest := SplitSections(s, next);
        if rest.Broken? then Broken else Split([(sec.key, sec.value)] + rest.pairs, rest.pos)
  }

  /** The parser after an action: at a position, or stopped by a rejection. */
  function Ended(p: Populated, pos: nat): Parsed
  {
    if p.Populated? then Parsed(p.action, pos) else Aborted(p.error)
  }

  /** An action whose sections are all well formed is their interpretation, in order. */
  lemma {:induction false} ParseActionSplits(s: string, pos: nat, a: Action, n: nat)
    requires pos <= |s| && SplitSections(s, pos).Split?
    ensures var split := SplitSections(s, pos);
      ParseAction(s, pos, a, n) == Ended(PopulateAll(a, n, split.pairs), split.pos)
    decreases |s| - pos
  {
    var sec := ParseSection(s, pos);
    var split := SplitSections(s, pos);
    var next := SkipSpaces(s, sec.pos);
    if sec.last {
      assert split.pairs[1..] == [];
    } else {
      assert split.pairs[1..] == SplitSections(s, next).pairs;
      var b := PopulateAction(a, n, sec.key, sec.value);
      if b.Populated? { ParseActionSplits(s, next, b.action, n + 1); }
    }
  }

  /** Spaces before a section, and so before an action, make no difference. */
  lemma SkippedTwice(s: string, pos: nat)
    requires pos <= |s|
    ensures SkipSpaces(s, SkipSpaces(s, pos)) == SkipSpaces(s, pos)
  {
    SkipSpacesExact(s, pos);
  }

  lemma SectionSkips(s: string, pos: nat)
    requires pos <= |s|
    ensures ParseSection(s, SkipSpaces(s, pos)) == ParseSection(s, pos)
  {
    SkippedTwice(s, pos);
  }

  lemma SectionsSkip(s: string, pos: nat)
    requires pos <= |s|
    ensures SplitSections(s, SkipSpaces(s, pos)) == SplitSections(s, pos)
  {
    SectionSkips(s, pos);
  }

  lemma ActionSkips(s: string, pos: nat, a: Action, n: nat)
    requires pos <= |s|
    ensures ParseAction(s, SkipSpaces(s, pos), a, n) == ParseAction(s, pos, a, n)
  {
    SectionSkips(s, pos);
  }

  lemma ParseSkips(s: string, pos: nat)
    requires pos <= |s| && SkipSpaces(s, pos) < |s|
    ensures Parse(s, SkipSpaces(s, pos)) == Parse(s, pos)
  {
    ActionSkips(s, pos, NewAction(), 0);
  }

  /** A printed list of items has a rune that is no space. */
  lemma ItemsHaveText(s: string, pos: nat, ps: seq<Item>)
    requires PrintableItems(ps) && At(s, pos, PrintItems(ps))
    ensures SkipSpaces(s, pos) < |s|
  {
    var p := ps[0];
    if |ps| > 1 { AtJoin(s, pos, PrintItem(p), ',', PrintItems(ps[1..])); }
    ItemParts(s, pos, p);
    AtPoint(s, pos + |p.layout.lead|, p.pair.0, 0);
    assert IsKeyChar(s[pos + |p.layout.lead|]);
    SpacesSkipped(s, pos, p.layout.lead);
  }

  lemma ItemsAt(s: string, pos: nat, ps: seq<Item>)
    requires PrintableItems(ps) && |ps| > 1 && At(s, pos, PrintItems(ps))
    ensures var comma := pos + |PrintItem(ps[0])|;
      && At(s, pos, PrintItem(ps[0])) && comma < |s| && s[comma] == ','
      && At(s, comma + 1, PrintItems(ps[1..])) && comma + 1 + |PrintItems(ps[1..])| == pos + |PrintItems(ps)|
  {
    AtJoin(s, pos, PrintItem(ps[0]), ',', PrintItems(ps[1..]));
  }

  /** The text after an action that ends at `end`: the end of the input, or `;` and a next action. */
  predicate ActionBreak(s: string, end: nat, next: nat)
  {
    end <= |s| && IsLastSection(Peek(s, end)) && next == end + Width(s, end)
  }

  lemma SplitLast(s: string, pos: nat, p: Pair, next: nat)
    requires pos <= |s| && next <= |s| && ParseSection(s, pos) == Section(p.0, p.1, true, next)
    ensures SplitSections(s, pos) == Split([p], SkipSpaces(s, next))
  {
  }

  lemma LastItemSplits(s: string, pos: nat, p: Item, end: nat, next: nat)
    requires PrintableItem(p) && At(s, pos, PrintItem(p)) && end == pos + |PrintItem(p)| && ActionBreak(s, end, next)
    ensures SplitSections(s, pos) == Split([p.pair], SkipSpaces(s, next))
  {
    PairParses(s, pos, p);
    SplitLast(s, pos, p.pair, next);
  }

  lemma SplitStep(s: string, pos: nat, p: Pair, next: nat)
    requires pos <= |s| && next <= |s| && ParseSection(s, pos) == Section(p.0, p.1, false, next)
    ensures var rest := SplitSections(s, next);
      SplitSections(s, pos) == if rest.Broken? then Broken else Split([p] + rest.pairs, rest.pos)
  {
    SectionsSkip(s, next);
  }

  lemma PairsCons(ps: seq<Item>)
    requires ps != []
    ensures PairsOf(ps) == [ps[0].pair] + PairsOf(ps[1..])
  {
  }

  lemma MoreItemsSplit(s: string, pos: nat, ps: seq<Item>, after: nat, stop: nat)
    requires ps != [] && PrintableItem(ps[0]) && At(s, pos, PrintItem(ps[0])) && after == pos + |PrintItem(ps[0])| + 1
    requires after <= |s| && s[after - 1] == ',' && SplitSections(s, after) == Split(PairsOf(ps[1..]), stop)
    ensures SplitSections(s, pos) == Split(PairsOf(ps), stop)
  {
    PairParses(s, pos, ps[0]);
    SplitStep(s, pos, ps[0].pair, after);
    PairsCons(ps);
  }

  lemma OneItemSplits(s: string, pos: nat, ps: seq<Item>, end: nat, next: nat)
    requires |ps| == 1 && PrintableItem(ps[0]) && At(s, pos, PrintItem(ps[0])) && end == pos + |PrintItem(ps[0])|
    requires ActionBreak(s, end, next)
    ensures SplitSections(s, pos) == Split(PairsOf(ps), SkipSpaces(s, next))
  {
    LastItemSplits(s, pos, ps[0], end, next);
    assert PairsOf(ps) == [ps[0].pair];
  }

  /** Printed items are split back into their pairs, and the parser stops where the next action starts. */
  lemma {:induction false} ItemsSplit(s: string, pos: nat, ps: seq<Item>, end: nat, next: nat)
    requires PrintableItems(ps) && At(s, pos, PrintItems(ps)) && end == pos + |PrintItems(ps)| && ActionBreak(s, end, next)
    ensures SplitSections(s, pos) == Split(PairsOf(ps), SkipSpaces(s, next))
    decreases |ps|
  {
    if |ps| == 1 {
      OneItemSplits(s, pos, ps, end, next);
    } else {
      var after := pos + |PrintItem(ps[0])| + 1;
      ItemsAt(s, pos, ps);
      ItemsSplit(s, after, ps[1..], end, next);
      MoreItemsSplit(s, pos, ps, after, SkipSpaces(s, next));
    }
  }

  /** An action printed as items is read back with the pairs applied in order, or with the first
      rejection. */
  lemma ItemsParse(s: string, pos: nat, ps: seq<Item>, a: Action, n: nat, next: nat)
    requires PrintableItems(ps) && At(s, pos, PrintItems(ps)) && ActionBreak(s, pos + |PrintItems(ps)|, next)
    ensures ParseAction(s, pos, a, n) == Ended(PopulateAll(a, n, PairsOf(ps)), SkipSpaces(s, next))
  {
    ItemsSplit(s, pos, ps, pos + |PrintItems(ps)|, next);
    ParseActionSplits(s, pos, a, n);
  }

  // ---------- lists of actions ----------

  /** A first action, or its rejection, and the outcome for the others. */
  function Joined(first: Populated, rest: Outcome): Outcome
  {
    if first.Rejected? then Invalid(first.error)
    else if rest.Invalid? then rest
    else Actions([first.action] + rest.actions)
  }

  /** The meaning of a list of pair lists: the actions, or the first rejection. */
  function Meaning(lists: seq<seq<Pair>>): Outcome
  {
    if lists == [] then Actions([]) else Joined(PopulateAll(NewAction(), 0, lists[0]), Meaning(lists[1..]))
  }

  lemma ListAt(s: string, pos: nat, lists: seq<seq<Item>>)
    requires AllPrintable(lists) && |lists| > 1 && At(s, pos, PrintAll(lists))
    ensures var semi := pos + |PrintItems(lists[0])|;
      && At(s, pos, PrintItems(lists[0])) && semi < |s| && s[semi] == ';'
      && At(s, semi + 1, PrintAll(lists[1..])) && semi + 1 + |PrintAll(lists[1..])| == pos + |PrintAll(lists)|
  {
    AtJoin(s, pos, PrintItems(lists[0]), ';', PrintAll(lists[1..]));
  }

  lemma ListHasText(s: string, pos: nat, lists: seq<seq<Item>>)
    requires AllPrintable(lists) && lists != [] && At(s, pos, PrintAll(lists))
    ensures SkipSpaces(s, pos) < |s|
  {
    if |lists| > 1 { ListAt(s, pos, lists); }
    ItemsHaveText(s, pos, lists[0]);
  }

  /** One turn of the loop over actions. */
  lemma ParseTurn(s: string, pos: nat, first: Populated, next: nat)
    requires pos < |s| && next <= |s| && ParseAction(s, pos, NewAction(), 0) == Ended(first, next)
    ensures Parse(s, pos) == Joined(first, Parse(s, next))
  {
  }

  lemma AllPairsCons(lists: seq<seq<Item>>)
    requires lists != []
    ensures Meaning(AllPairs(lists)) == Joined(PopulateAll(NewAction(), 0, PairsOf(lists[0])), Meaning(AllPairs(lists[1..])))
  {
    assert AllPairs(lists)[1..] == AllPairs(lists[1..]);
  }

  /** An action, and what follows it from the next rune that is no space. */
  lemma ActionThen(s: string, pos: nat, ps: seq<Item>, next: nat)
    requires PrintableItems(ps) && At(s, pos, PrintItems(ps)) && ActionBreak(s, pos + |PrintItems(ps)|, next) && next <= |s|
    ensures Parse(s, pos) == Joined(PopulateAll(NewAction(), 0, PairsOf(ps)), Parse(s, SkipSpaces(s, next)))
  {
    ItemsHaveText(s, pos, ps);
    ItemsParse(s, pos, ps, NewAction(), 0, next);
    ParseTurn(s, pos, PopulateAll(NewAction(), 0, PairsOf(ps)), SkipSpaces(s, next));
  }

  lemma {:induction false} ListParses(s: string, pos: nat, lists: seq<seq<Item>>)
    requires AllPrintable(lists) && At(s, pos, PrintAll(lists)) && pos + |PrintAll(lists)| == |s|
    ensures Parse(s, pos) == Meaning(AllPairs(lists))
    decreases |lists|
  {
    if lists != [] {
      AllPairsCons(lists);
      if |lists| == 1 {
        ActionThen(s, pos, lists[0], |s|);
      } else {
        ListAt(s, pos, lists);
        var next := pos + |PrintItems(lists[0])| + 1;
        ListParses(s, next, lists[1..]);
        ListHasText(s, next, lists[1..]);
        ActionAndRest(s, pos, lists[0], next);
      }
    }
  }

  lemma ActionAndRest(s: string, pos: nat, ps: seq<Item>, next: nat)
    requires PrintableItems(ps) && At(s, pos, PrintItems(ps)) && next == pos + |PrintItems(ps)| + 1 <= |s|
    requires s[next - 1] == ';' && SkipSpaces(s, next) < |s|
    ensures Parse(s, pos) == Joined(PopulateAll(NewAction(), 0, PairsOf(ps)), Parse(s, next))
  {
    ActionThen(s, pos, ps, next);
    ParseSkips(s, next);
  }

  /** Parsing any printed list of item lists, in whatever layout, gives exactly the meaning of its
      pairs, error included. */
  lemma PrintedListParses(lists: seq<seq<Item>>)
    requires AllPrintable(lists)
    ensures Parse(PrintAll(lists), 0) == Meaning(AllPairs(lists))
  {
    var s := PrintAll(lists);
    assert s[0..] == s;
    ListParses(s, 0, lists);
  }

  // ---------- any text ----------

  /** An action with a malformed section is not accepted. */
  lemma {:induction false} BrokenActionFails(s: string, pos: nat, a: Action, n: nat)
    requires pos <= |s| && SplitSections(s, pos).Broken?
    ensures ParseAction(s, pos, a, n).Aborted?
    decreases |s| - pos
  {
    var sec := ParseSection(s, pos);
    if sec.Section? && !sec.last {
      var b := PopulateAction(a, n, sec.key, sec.value);
      if b.Populated? { BrokenActionFails(s, SkipSpaces(s, sec.pos), b.action, n + 1); }
    }
  }

  /** The pairs of all actions, if every section is well formed. */
  function SplitAll(s: string, pos: nat): Option<seq<seq<Pair>>>
    requires pos <= |s|
    decreases |s| - pos
  {
    if pos == |s| then Some([])
    else
      var split := SplitSections(s, pos);
      if split.Broken? then None
      else
        var rest := SplitAll(s, split.pos);
        if rest.None? then None else Some([split.pairs] + rest.value)
  }

  /** For every text: the parser returns what the pairs of its sections mean, in order, or their first
      rejection; and a text with a malformed section is not accepted. */
  lemma {:induction false} ParseIsMeaning(s: string, pos: nat)
    requires pos <= |s|
    ensures var split := SplitAll(s, pos);
      if split.Some? then Parse(s, pos) == Meaning(split.value) else Parse(s, pos).Invalid?
    decreases |s| - pos
  {
    if pos < |s| {
      var split := SplitSections(s, pos);
      if split.Broken? {
        BrokenActionFails(s, pos, NewAction(), 0);
      } else {
        var first := PopulateAll(NewAction(), 0, split.pairs);
        ParseActionSplits(s, pos, NewAction(), 0);
        ParseIsMeaning(s, split.pos);
        ParseTurn(s, pos, first, split.pos);
        var rest := SplitAll(s, split.pos);
        if rest.Some? { assert ([split.pairs] + rest.value)[1..] == rest.value; }
      }
    }
  }

  // ---------- what a pair means ----------

  const FIELDS := ["action", "label", "clear", "url", "method", "body", "intent"]

  const TRUE_WORDS := {"true", "yes", "1"}
  const FALSE_WORDS := {"false", "no", "0"}

  /** A pair with a key is rejected exactly if the key is neither a header, an extra nor one of the seven
      fields in whatever case, or is the field clear with a value that is no boolean. */
  lemma RejectedPairs(a: Action, n: nat, key: string, v: string)
    requires key != ""
    ensures PopulateAction(a, n, key, v).Rejected? <==>
      && !(HEADERS <= key) && !(EXTRAS <= key)
      && (ToLower(key) !in FIELDS || (ToLower(key) == "clear" && ToLower(v) !in TRUE_WORDS + FALSE_WORDS))
  {
    FieldNames(ToLower(key));
  }

  lemma FieldNames(name: string)
    ensures name in FIELDS <==>
      || name == "action" || name == "label" || name == "clear" || name == "url" || name == "method"
      || name == "body" || name == "intent"
  {
    assert FIELDS[0] == "action" && FIELDS[1] == "label" && FIELDS[2] == "clear" && FIELDS[3] == "url";
    assert FIELDS[4] == "method" && FIELDS[5] == "body" && FIELDS[6] == "intent";
  }

  /** An action with nothing but these three fields set. */
  function Plain(action: string, caption: string, url: string): Action
  {
    Action(action, caption, false, url, "", map[], "", "", map[])
  }

  /** Sections without keys are the action, its label and, for view and http only, its URL. */
  lemma PositionalKeys(action: string, caption: string, url: string)
    ensures PopulateAll(NewAction(), 0, [("", action), ("", caption)])
         == Populated(Plain(action, caption, ""))
    ensures PopulateAll(NewAction(), 0, [("", action), ("", caption), ("", url)])
         == if action == "view" || action == "http" then Populated(Plain(action, caption, url))
            else Rejected(UnknownTerm(url))
  {
    LowerSame("action");
    LowerSame("label");
    LowerSame("url");
    var a1 := NewAction().(action := action);
    var a2 := a1.(caption := caption);
    assert PopulateAction(NewAction(), 0, "", action) == Populated(a1);
    assert PopulateAction(a1, 1, "", caption) == Populated(a2);
    var two, three: seq<Pair> := [("", action), ("", caption)], [("", action), ("", caption), ("", url)];
    assert two[1..] == [("", caption)] && two[1..][1..] == [];
    assert three[1..][1..] == [("", url)] && three[1..][1..][1..] == [];
    assert PopulateAll(a2, 2, []) == Populated(a2);
    assert PopulateAll(a2, 2, [("", url)]) == if action == "view" || action == "http" then Populated(a2.(url := url))
                                              else Rejected(UnknownTerm(url));
    assert PopulateAll(a1, 1, two[1..]) == Populated(a2);
    assert PopulateAll(a1, 1, three[1..]) == PopulateAll(a2, 2, [("", url)]);
  }

  // ---------- actions as pairs ----------

  function MapPairs(prefix: string, names: seq<string>, m: map<string, string>): seq<Pair>
    requires forall i | 0 <= i < |names| :: names[i] in m
  {
    seq(|names|, i requires 0 <= i < |names| => (prefix + names[i], m[names[i]]))
  }

  /** An action with a spelling of its field names and of the boolean, and an order for its headers and
      extras. */
  datatype Listing = Listing(action: Action, names: seq<string>, flag: string, headers: seq<string>, extras: seq<string>)

  ghost predicate Lists(names: seq<string>, m: map<string, string>)
  {
    forall n :: n in names <==> n in m
  }

  /** Field names in any case, and any of the words for true or false in any case. */
  predicate Spelled(l: Listing)
  {
    && |l.names| == |FIELDS| && (forall i | 0 <= i < |FIELDS| :: ToLower(l.names[i]) == FIELDS[i])
    && ToLower(l.flag) in (if l.action.clear then TRUE_WORDS else FALSE_WORDS)
  }

  ghost predicate WellListed(l: Listing)
  {
    Spelled(l) && Lists(l.headers, l.action.headers) && Lists(l.extras, l.action.extras)
  }

  function FieldValue(l: Listing, i: nat): string
  {
    match i
    case 0 => l.action.action
    case 1 => l.action.caption
    case 2 => l.flag
    case 3 => l.action.url
    case 4 => l.action.verb
    case 5 => l.action.body
    case _ => l.action.intent
  }

  function FieldPairs(l: Listing): seq<Pair>
    requires Spelled(l)
  {
    seq(|FIELDS|, i requires 0 <= i < |FIELDS| => (l.names[i], FieldValue(l, i)))
  }

  function ToPairs(l: Listing): seq<Pair>
    requires WellListed(l)
  {
    FieldPairs(l) + MapPairs(HEADERS, l.headers, l.action.headers) + MapPairs(EXTRAS, l.extras, l.action.extras)
  }

  predicate PrintableName(n: string) { forall i | 0 <= i < |n| :: IsKeyChar(n[i]) }

  ghost predicate PrintableAction(l: Listing)
  {
    var a := l.action;
    && Printable(a.action) && Printable(a.caption) && Printable(a.url) && Printable(a.verb)
    && Printable(a.body) && Printable(a.intent)
    && (forall n | n in a.headers :: PrintableName(n) && Printable(a.headers[n]))
    && (forall n | n in a.extras :: PrintableName(n) && Printable(a.extras[n]))
  }

  lemma PopulateUnfold(a: Action, n: nat, ps: seq<Pair>)
    requires ps != []
    ensures var b := PopulateAction(a, n, ps[0].0, ps[0].1);
      PopulateAll(a, n, ps) == if b.Rejected? then b else PopulateAll(b.action, n + 1, ps[1..])
  {
  }

  lemma ConcatTail(ps: seq<Pair>, qs: seq<Pair>)
    requires ps != []
    ensures (ps + qs)[1..] == ps[1..] + qs && (ps + qs)[0] == ps[0]
  {
  }

  lemma {:induction false} PopulateConcat(a: Action, n: nat, ps: seq<Pair>, qs: seq<Pair>)
    ensures PopulateAll(a, n, ps + qs) == match PopulateAll(a, n, ps)
                                          case Populated(b) => PopulateAll(b, n + |ps|, qs)
                                          case Rejected(e) => Rejected(e)
    decreases |ps|
  {
    if ps == [] {
      assert ps + qs == qs;
    } else {
      ConcatTail(ps, qs);
      var b := PopulateAction(a, n, ps[0].0, ps[0].1);
      PopulateUnfold(a, n, ps);
      PopulateUnfold(a, n, ps + qs);
      if b.Populated? { PopulateConcat(b.action, n + 1, ps[1..], qs); }
    }
  }

  lemma PopulateThen(a: Action, ps: seq<Pair>, b: Action, qs: seq<Pair>, c: Action)
    requires PopulateAll(a, 0, ps) == Populated(b) && PopulateAll(b, |ps|, qs) == Populated(c)
    ensures PopulateAll(a, 0, ps + qs) == Populated(c)
  {
    PopulateConcat(a, 0, ps, qs);
  }

  function Extend(m: map<string, string>, names: seq<string>, from: map<string, string>): map<string, string>
    requires forall i | 0 <= i < |names| :: names[i] in from
    decreases |names|
  {
    if names == [] then m else Extend(m[names[0] := from[names[0]]], names[1..], from)
  }

  lemma {:induction false} ExtendAll(m: map<string, string>, names: seq<string>, from: map<string, string>)
    requires forall i | 0 <= i < |names| :: names[i] in from
    requires forall n | n in m :: n in from && m[n] == from[n]
    requires forall n | n in from :: n in m || n in names
    ensures Extend(m, names, from) == from
    decreases |names|
  {
    if names != [] {
      assert names == [names[0]] + names[1..];
      ExtendAll(m[names[0] := from[names[0]]], names[1..], from);
    }
  }

  lemma HeaderKey(n: string)
    ensures HEADERS <= HEADERS + n && (HEADERS + n)[|HEADERS|..] == n && HEADERS + n != ""
  {
  }

  lemma ExtraKey(n: string)
    ensures EXTRAS <= EXTRAS + n && (EXTRAS + n)[|EXTRAS|..] == n && !(HEADERS <= EXTRAS + n) && EXTRAS + n != ""
  {
    assert (EXTRAS + n)[0] == 'e' && HEADERS[0] == 'h';
  }

  lemma {:induction false} PopulateHeaders(a: Action, k: nat, names: seq<string>, m: map<string, string>)
    requires forall i | 0 <= i < |names| :: names[i] in m
    ensures PopulateAll(a, k, MapPairs(HEADERS, names, m)) == Populated(a.(headers := Extend(a.headers, names, m)))
    decreases |names|
  {
    var ps := MapPairs(HEADERS, names, m);
    if names != [] {
      HeaderKey(names[0]);
      assert ps[1..] == MapPairs(HEADERS, names[1..], m);
      PopulateHeaders(a.(headers := a.headers[names[0] := m[names[0]]]), k + 1, names[1..], m);
    }
  }

  lemma {:induction false} PopulateExtras(a: Action, k: nat, names: seq<string>, m: map<string, string>)
    requires forall i | 0 <= i < |names| :: names[i] in m
    ensures PopulateAll(a, k, MapPairs(EXTRAS, names, m)) == Populated(a.(extras := Extend(a.extras, names, m)))
    decreases |names|
  {
    var ps := MapPairs(EXTRAS, names, m);
    if names != [] {
      ExtraKey(names[0]);
      assert ps[1..] == MapPairs(EXTRAS, names[1..], m);
      PopulateExtras(a.(extras := a.extras[names[0] := m[names[0]]]), k + 1, names[1..], m);
    }
  }

  /** The action with one more of the seven named fields taken over. */
  function WithField(b: Action, a: Action, i: nat): Action
  {
    match i
    case 0 => b.(action := a.action)
    case 1 => b.(caption := a.caption)
    case 2 => b.(clear := a.clear)
    case 3 => b.(url := a.url)
    case 4 => b.(verb := a.verb)
    case 5 => b.(body := a.body)
    case _ => b.(intent := a.intent)
  }

  lemma FieldKey(name: string, i: nat)
    requires i < |FIELDS| && ToLower(name) == FIELDS[i]
    ensures name != "" && !(HEADERS <= name) && !(EXTRAS <= name)
  {
    assert |name| == |FIELDS[i]| && 3 <= |FIELDS[i]| <= 6;
    assert |HEADERS| == 8 && |EXTRAS| == 7;
  }

  lemma SetFieldNamed(b: Action, l: Listing, i: nat)
    requires Spelled(l) && i < |FIELDS|
    ensures PopulateAction(b, i, FieldPairs(l)[i].0, FieldPairs(l)[i].1) == Populated(WithField(b, l.action, i))
  {
    FieldKey(l.names[i], i);
  }

  function FieldsFrom(b: Action, a: Action, i: nat): Action
    requires i <= 7
    decreases 7 - i
  {
    if i == 7 then b else FieldsFrom(WithField(b, a, i), a, i + 1)
  }

  /** One pair of a list, from the end of the list backwards. */
  lemma PopulateStep(a: Action, i: nat, ps: seq<Pair>, b: Action, c: Action)
    requires i < |ps| && PopulateAction(a, i, ps[i].0, ps[i].1) == Populated(b)
    requires if i + 1 == |ps| then b == c else PopulateAll(b, i + 1, ps[i + 1..]) == Populated(c)
    ensures PopulateAll(a, i, ps[i..]) == Populated(c)
  {
    assert ps[i..][1..] == ps[i + 1..];
  }

  lemma {:induction false} PopulateFrom(b: Action, l: Listing, i: nat)
    requires Spelled(l) && i <= 7
    ensures PopulateAll(b, i, FieldPairs(l)[i..]) == Populated(FieldsFrom(b, l.action, i))
    decreases 7 - i
  {
    if i < 7 {
      SetFieldNamed(b, l, i);
      PopulateFrom(WithField(b, l.action, i), l, i + 1);
      PopulateStep(b, i, FieldPairs(l), WithField(b, l.action, i), FieldsFrom(b, l.action, i));
    }
  }

  lemma AllFields(a: Action)
    ensures FieldsFrom(NewAction(), a, 0) == a.(headers := map[], extras := map[])
  {
  }

  /** The seven named fields set every field but the two maps, whatever they were. */
  lemma PopulateFields(l: Listing)
    requires Spelled(l)
    ensures PopulateAll(NewAction(), 0, FieldPairs(l)) == Populated(l.action.(headers := map[], extras := map[]))
  {
    AllFields(l.action);
    PopulateFrom(NewAction(), l, 0);
    assert FieldPairs(l)[0..] == FieldPairs(l);
  }

  lemma LowerSame(s: string)
    requires forall i | 0 <= i < |s| :: !('A' <= s[i] <= 'Z')
    ensures ToLower(s) == s
  {
  }

  lemma FieldsAndHeaders(l: Listing)
    requires WellListed(l)
    ensures PopulateAll(NewAction(), 0, FieldPairs(l) + MapPairs(HEADERS, l.headers, l.action.headers))
         == Populated(l.action.(extras := map[]))
  {
    var a := l.action;
    PopulateFields(l);
    var b := a.(headers := map[], extras := map[]);
    ExtendAll(map[], l.headers, a.headers);
    PopulateHeaders(b, 7, l.headers, a.headers);
    PopulateThen(NewAction(), FieldPairs(l), b, MapPairs(HEADERS, l.headers, a.headers), a.(extras := map[]));
  }

  lemma ExtrasAfter(a: Action, init: seq<Pair>, names: seq<string>)
    requires Lists(names, a.extras)
    requires PopulateAll(NewAction(), 0, init) == Populated(a.(extras := map[]))
    ensures PopulateAll(NewAction(), 0, init + MapPairs(EXTRAS, names, a.extras)) == Populated(a)
  {
    ExtendAll(map[], names, a.extras);
    PopulateExtras(a.(extras := map[]), |init|, names, a.extras);
    PopulateThen(NewAction(), init, a.(extras := map[]), MapPairs(EXTRAS, names, a.extras), a);
  }

  /** The pairs of a listing rebuild its action. */
  lemma ListingRebuilds(l: Listing)
    requires WellListed(l)
    ensures PopulateAll(NewAction(), 0, ToPairs(l)) == Populated(l.action)
  {
    var init := FieldPairs(l) + MapPairs(HEADERS, l.headers, l.action.headers);
    FieldsAndHeaders(l);
    ExtrasAfter(l.action, init, l.extras);
  }

  predicate EachPrintable(ps: seq<Pair>) { forall i | 0 <= i < |ps| :: PrintablePair(ps[i]) }

  /** A word that is lower case once folded is made of letters and digits. */
  lemma LettersPrintable(w: string, lower: string)
    requires ToLower(w) == lower && lower != [] && forall i | 0 <= i < |lower| :: 'a' <= lower[i] <= 'z' || '0' <= lower[i] <= '9'
    ensures ValidKey(w) && Printable(w)
  {
    forall i | 0 <= i < |w| ensures IsKeyChar(w[i]) && w[i] != EOF && w[i] != '\\' {
      assert Fold(w[i]) == lower[i];
    }
  }

  lemma FieldsPrintable(l: Listing)
    requires Spelled(l) && PrintableAction(l)
    ensures EachPrintable(FieldPairs(l))
  {
    LettersPrintable(l.flag, ToLower(l.flag));
    forall i | 0 <= i < |FIELDS| ensures PrintablePair(FieldPairs(l)[i]) {
      LettersPrintable(l.names[i], FIELDS[i]);
    }
  }

  lemma MapPrintable(prefix: string, names: seq<string>, m: map<string, string>)
    requires ValidKey(prefix) && forall i | 0 <= i < |names| :: names[i] in m
    requires forall n | n in m :: PrintableName(n) && Printable(m[n])
    ensures EachPrintable(MapPairs(prefix, names, m))
  {
  }

  lemma ListingPrintable(l: Listing)
    requires WellListed(l) && PrintableAction(l)
    ensures EachPrintable(ToPairs(l)) && ToPairs(l) != []
  {
    FieldsPrintable(l);
    MapPrintable(HEADERS, l.headers, l.action.headers);
    MapPrintable(EXTRAS, l.extras, l.action.extras);
  }

  function ListingsPairs(ls: seq<Listing>): seq<seq<Pair>>
    requires AllListed(ls)
  {
    seq(|ls|, i requires 0 <= i < |ls| => ToPairs(ls[i]))
  }

  function ListedActions(ls: seq<Listing>): seq<Action>
  {
    seq(|ls|, i requires 0 <= i < |ls| => ls[i].action)
  }

  lemma MeaningCons(lists: seq<seq<Pair>>, a: Action, rest: seq<Action>)
    requires lists != [] && PopulateAll(NewAction(), 0, lists[0]) == Populated(a) && Meaning(lists[1..]) == Actions(rest)
    ensures Meaning(lists) == Actions([a] + rest)
  {
  }

  ghost predicate AllListed(ls: seq<Listing>)
  {
    forall i | 0 <= i < |ls| :: WellListed(ls[i])
  }

  lemma ListingsCons(ls: seq<Listing>)
    requires AllListed(ls) && ls != []
    ensures ListingsPairs(ls)[0] == ToPairs(ls[0]) && ListingsPairs(ls)[1..] == ListingsPairs(ls[1..])
    ensures ListedActions(ls) == [ls[0].action] + ListedActions(ls[1..])
  {
  }

  lemma {:induction false} MeaningOfListings(ls: seq<Listing>)
    requires AllListed(ls)
    ensures Meaning(ListingsPairs(ls)) == Actions(ListedActions(ls))
  {
    if ls != [] {
      ListingRebuilds(ls[0]);
      MeaningOfListings(ls[1..]);
      ListingsCons(ls);
      MeaningCons(ListingsPairs(ls), ls[0].action, ListedActions(ls[1..]));
    }
  }

  /** The items write the pairs of the listings, each in a layout of its own. */
  ghost predicate Writes(lists: seq<seq<Item>>, ls: seq<Listing>)
    requires AllListed(ls)
  {
    && AllPairs(lists) == ListingsPairs(ls)
    && forall i, j | 0 <= i < |lists| && 0 <= j < |lists[i]| :: ValidLayout(lists[i][j].layout)
  }

  lemma WrittenPrintable(ps: seq<Item>, l: Listing)
    requires WellListed(l) && PrintableAction(l) && PairsOf(ps) == ToPairs(l)
    requires forall j | 0 <= j < |ps| :: ValidLayout(ps[j].layout)
    ensures PrintableItems(ps)
  {
    ListingPrintable(l);
    assert |ps| == |PairsOf(ps)|;
    forall j | 0 <= j < |ps| ensures PrintableItem(ps[j]) {
      assert PairsOf(ps)[j] == ps[j].pair && PrintablePair(ToPairs(l)[j]);
    }
  }

  /** Printing any list of printable actions and parsing the text gives the same list: with field names
      and boolean spelled in any way, headers and extras in any order, each value in either kind of
      quotes, and spaces wherever they may stand. */
  lemma ActionsRoundTrip(ls: seq<Listing>, lists: seq<seq<Item>>)
    requires AllListed(ls) && (forall i | 0 <= i < |ls| :: PrintableAction(ls[i])) && Writes(lists, ls)
    ensures AllPrintable(lists) && Parse(PrintAll(lists), 0) == Actions(ListedActions(ls))
  {
    assert |lists| == |AllPairs(lists)| == |ls|;
    forall i | 0 <= i < |lists| ensures PrintableItems(lists[i]) {
      assert AllPairs(lists)[i] == PairsOf(lists[i]) && ListingsPairs(ls)[i] == ToPairs(ls[i]);
      WrittenPrintable(lists[i], ls[i]);
    }
    PrintedListParses(lists);
    MeaningOfListings(ls);
  }
}
