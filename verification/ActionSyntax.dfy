/**
  The simple action format of server/actions.go as functions of the input and a position. Positions
  count runes. The NUL rune doubles as end of input.
 */
module ActionSyntax {
  import opened Text

  const EOF: char := '\0'

  datatype Action = Action(
    action: string, caption: string, clear: bool, url: string, verb: string, headers: map<string, string>,
    body: string, intent: string, extras: map<string, string>)

  datatype Error =
    | UnexpectedEnd(start: nat)
    | UnexpectedCharacter(c: char, at: nat)
    | UnknownTerm(term: string)
    | UnknownKey(key: string)
    | NotBoolean(value: string)

  // ---------- characters ----------

  predicate IsSpace(c: char) { c == ' ' || c == '\t' || c == '\r' || c == '\n' }

  predicate IsSectionEnd(c: char) { c == EOF || c == ';' || c == ',' }

  predicate IsLastSection(c: char) { c == EOF || c == ';' }

  /** [-.\w] */
  predicate IsKeyChar(c: char)
  {
    c == '-' || c == '.' || c == '_' || '0' <= c <= '9' || 'A' <= c <= 'Z' || 'a' <= c <= 'z'
  }

  /** \s in a Go regular expression, which also covers the form feed. */
  predicate IsRegexSpace(c: char) { IsSpace(c) || c == '\U{000C}' }

  /** unicode.IsSpace, as strings.TrimSpace uses it. */
  predicate IsUnicodeSpace(c: char)
  {
    || IsRegexSpace(c) || c == '\U{000B}' || c == '\U{0085}' || c == '\U{00A0}' || c == '\U{1680}'
    || '\U{2000}' <= c <= '\U{200A}' || c == '\U{2028}' || c == '\U{2029}' || c == '\U{202F}'
    || c == '\U{205F}' || c == '\U{3000}'
  }

  /** strings.ToLower as far as it matters: keys are ASCII, and no rune outside ASCII lowers into one of
      the words for true and false. */
  function ToLower(s: string): string
  {
    seq(|s|, i requires 0 <= i < |s| => Fold(s[i]))
  }

  function TrimLeft(s: string): string
  {
    if s != [] && IsUnicodeSpace(s[0]) then TrimLeft(s[1..]) else s
  }

  function TrimRight(s: string): string
  {
    if s != [] && IsUnicodeSpace(s[|s| - 1]) then TrimRight(s[..|s| - 1]) else s
  }

  function TrimSpace(s: string): string { TrimRight(TrimLeft(s)) }

  // ---------- scanning ----------

  function Peek(s: string, pos: nat): char
  {
    if pos < |s| then s[pos] else EOF
  }

  function Width(s: string, pos: nat): nat
  {
    if pos < |s| then 1 else 0
  }

  function SkipSpaces(s: string, pos: nat): (r: nat)
    requires pos <= |s|
    ensures pos <= r <= |s|
    decreases |s| - pos
  {
    if pos < |s| && IsSpace(s[pos]) then SkipSpaces(s, pos + 1) else pos
  }

  /** Skipping spaces passes over spaces only and stops at the first rune that is none. */
  lemma {:induction false} SkipSpacesExact(s: string, pos: nat)
    requires pos <= |s|
    ensures var r := SkipSpaces(s, pos);
      (forall i | pos <= i < r :: IsSpace(s[i])) && (r < |s| ==> !IsSpace(s[r]))
    decreases |s| - pos
  {
    if pos < |s| && IsSpace(s[pos]) { SkipSpacesExact(s, pos + 1); }
  }

  function SkipRegexSpaces(s: string, pos: nat): (r: nat)
    requires pos <= |s|
    ensures pos <= r <= |s|
    decreases |s| - pos
  {
    if pos < |s| && IsRegexSpace(s[pos]) then SkipRegexSpaces(s, pos + 1) else pos
  }

  function SkipKeyChars(s: string, pos: nat): (r: nat)
    requires pos <= |s|
    ensures pos <= r <= |s|
    decreases |s| - pos
  {
    if pos < |s| && IsKeyChar(s[pos]) then SkipKeyChars(s, pos + 1) else pos
  }

  /** `^([-.\w]+)\s*=\s*` at a position: the key and the position after the match. */
  function ParseKey(s: string, pos: nat): (r: (string, nat))
    requires pos <= |s|
    ensures pos <= r.1 <= |s|
    ensures r.0 != [] <==> r.1 > pos
  {
    var end := SkipKeyChars(s, pos);
    var eq := SkipRegexSpaces(s, end);
    if end > pos && Peek(s, eq) == '=' then (s[pos..end], SkipRegexSpaces(s, eq + 1)) else ("", pos)
  }

  function SectionEnd(s: string, pos: nat): (r: nat)
    requires pos <= |s|
    ensures pos <= r <= |s| && IsSectionEnd(Peek(s, r))
    decreases |s| - pos
  {
    if IsSectionEnd(Peek(s, pos)) then pos else SectionEnd(s, pos + 1)
  }

  /** The first quote whose predecessor is no backslash, unless the input ends before. */
  function QuoteEnd(s: string, pos: nat, prev: char, quote: char): (r: Option<nat>)
    requires pos <= |s|
    ensures r.Some? ==> pos <= r.value < |s| && s[r.value] == quote
    decreases |s| - pos
  {
    if Peek(s, pos) == EOF then None
    else if s[pos] == quote && prev != '\\' then Some(pos)
    else QuoteEnd(s, pos + 1, s[pos], quote)
  }

  // ---------- sections ----------

  datatype Section = Section(key: string, value: string, last: bool, pos: nat) | Failed(error: Error)

  predicate Progress(s: string, from: nat, r: Section)
  {
    r.Section? ==> from <= r.pos <= |s| && (!r.last || from < |s| ==> from < r.pos)
  }

  function ParseValue(s: string, pos: nat, key: string): (r: Section)
    requires pos <= |s|
    ensures Progress(s, pos, r)
  {
    var end := SectionEnd(s, pos);
    Section(key, TrimSpace(s[pos..end]), IsLastSection(Peek(s, end)), end + Width(s, end))
  }

  function ParseQuotedValue(s: string, pos: nat, quote: char, key: string): (r: Section)
    requires pos < |s|
    ensures Progress(s, pos, r)
  {
    var start := pos + 1;
    var end := QuoteEnd(s, start, EOF, quote);
    if end.None? then Failed(UnexpectedEnd(start))
    else
      var value := Unescape(s[start..end.value], quote);
      var next := SkipSpaces(s, end.value + 1);
      if IsSectionEnd(Peek(s, next)) then
        Section(key, value, IsLastSection(Peek(s, next)), next + Width(s, next))
      else Failed(UnexpectedCharacter(s[next], next))
  }

  function ParseSection(s: string, pos: nat): (r: Section)
    requires pos <= |s|
    ensures Progress(s, pos, r)
  {
    var (key, p) := ParseKey(s, SkipSpaces(s, pos));
    var c := Peek(s, p);
    if IsSectionEnd(c) then Section(key, "", IsLastSection(c), p + Width(s, p))
    else if c == '"' || c == '\'' then ParseQuotedValue(s, p, c, key)
    else ParseValue(s, p, key)
  }

  // ---------- actions ----------

  function NewAction(): Action
  {
    Action("", "", false, "", "", map[], "", "", map[])
  }

  datatype Populated = Populated(action: Action) | Rejected(error: Error)

  function ExpandKey(a: Action, section: nat, key: string): string
  {
    if key == "" && section == 0 then "action"
    else if key == "" && section == 1 then "label"
    else if key == "" && section == 2 && (a.action == "view" || a.action == "http") then "url"
    else key
  }

  const HEADERS := "headers."
  const EXTRAS := "extras."

  predicate IsTrue(v: string) { v == "true" || v == "yes" || v == "1" }

  predicate IsFalse(v: string) { v == "false" || v == "no" || v == "0" }

  function SetField(a: Action, key: string, value: string): Populated
  {
    var name := ToLower(key);
    if name == "action" then Populated(a.(action := value))
    else if name == "label" then Populated(a.(caption := value))
    else if name == "clear" then
      var b := ToLower(value);
      if IsTrue(b) || IsFalse(b) then Populated(a.(clear := IsTrue(b))) else Rejected(NotBoolean(value))
    else if name == "url" then Populated(a.(url := value))
    else if name == "method" then Populated(a.(verb := value))
    else if name == "body" then Populated(a.(body := value))
    else if name == "intent" then Populated(a.(intent := value))
    else Rejected(UnknownKey(key))
  }

  function PopulateAction(a: Action, section: nat, rawKey: string, value: string): Populated
  {
    var key := ExpandKey(a, section, rawKey);
    if key == "" then Rejected(UnknownTerm(value))
    else if HEADERS <= key then Populated(a.(headers := a.headers[key[|HEADERS|..] := value]))
    else if EXTRAS <= key then Populated(a.(extras := a.extras[key[|EXTRAS|..] := value]))
    else SetField(a, key, value)
  }

  datatype Parsed = Parsed(action: Action, pos: nat) | Aborted(error: Error)

  function ParseAction(s: string, pos: nat, a: Action, section: nat): (r: Parsed)
    requires pos <= |s|
    ensures r.Parsed? ==> pos <= r.pos <= |s| && (pos < |s| ==> pos < r.pos)
    decreases |s| - pos
  {
    var sec := ParseSection(s, pos);
    if sec.Failed? then Aborted(sec.error)
    else
      var b := PopulateAction(a, section, sec.key, sec.value);
      if b.Rejected? then Aborted(b.error)
      else
        var next := SkipSpaces(s, sec.pos);
        if sec.last then Parsed(b.action, next) else ParseAction(s, next, b.action, section + 1)
  }

  datatype Outcome = Actions(actions: seq<Action>) | Invalid(error: Error)

  function Parse(s: string, pos: nat): Outcome
    requires pos <= |s|
    decreases |s| - pos
  {
    if pos == |s| then Actions([])
    else
      var a := ParseAction(s, pos, NewAction(), 0);
      if a.Aborted? then Invalid(a.error)
      else
        var rest := Parse(s, a.pos);
        if rest.Invalid? then rest else Actions([a.action] + rest.actions)
  }
}
