/**
  The parser of server/actions.go as it runs: a position advanced by nested loops. Every method is
  tied to the function of ActionSyntax it computes; every loop is shown to end.
 */
module ActionParser {
  import opened Text
  import S = ActionSyntax

  /** The action that populateAction fills in. */
  class ActionRecord {
    var value: S.Action

    constructor ()
      ensures value == S.NewAction()
    {
      value := S.Action("", "", false, "", "", map[], "", "", map[]);
    }

    method Populate(section: nat, rawKey: string, text: string) returns (error: Option<S.Error>)
      modifies this
      ensures match S.PopulateAction(old(value), section, rawKey, text)
              case Populated(a) => error.None? && value == a
              case Rejected(e) => error == Some(e) && value == old(value)
    {
      var key := rawKey;
      if key == "" && section == 0 {
        key := "action";
      } else if key == "" && section == 1 {
        key := "label";
      } else if key == "" && section == 2 && (value.action == "view" || value.action == "http") {
        key := "url";
      }
      if key == "" {
        return Some(S.UnknownTerm(text));
      }
      if S.HEADERS <= key {
        value := value.(headers := value.headers[key[|S.HEADERS|..] := text]);
      } else if S.EXTRAS <= key {
        value := value.(extras := value.extras[key[|S.EXTRAS|..] := text]);
      } else {
        match S.SetField(value, key, text)
        case Populated(a) => value := a;
        case Rejected(e) => return Some(e);
      }
      return None;
    }
  }

  class Parser {
    const input: string
    var pos: nat

    ghost predicate Valid()
      reads this
    {
      pos <= |input|
    }

    constructor (input: string)
      ensures Valid() && this.input == input && pos == 0
    {
      this.input := input;
      this.pos := 0;
    }

    /** Every rune is one position wide; at the end the width is zero. */
    method Peek() returns (c: char, width: nat)
      requires Valid()
      ensures c == S.Peek(input, pos) && width == S.Width(input, pos)
    {
      if pos >= |input| {
        return S.EOF, 0;
      }
      return input[pos], 1;
    }

    method SlurpSpaces()
      requires Valid()
      modifies this
      ensures Valid() && pos == S.SkipSpaces(input, old(pos))
      ensures old(pos) <= pos && forall i | old(pos) <= i < pos :: S.IsSpace(input[i])
      ensures pos < |input| ==> !S.IsSpace(input[pos])
    {
      while true
        invariant Valid() && S.SkipSpaces(input, pos) == S.SkipSpaces(input, old(pos))
        invariant old(pos) <= pos && forall i | old(pos) <= i < pos :: S.IsSpace(input[i])
        decreases |input| - pos
      {
        var c, width := Peek();
        if c == S.EOF || !S.IsSpace(c) {
          return;
        }
        pos := pos + width;
      }
    }

    method ParseKey() returns (key: string)
      requires Valid()
      modifies this
      ensures Valid() && (key, pos) == S.ParseKey(input, old(pos))
    {
      var (k, p) := S.ParseKey(input, pos);
      key, pos := k, p;
    }

    method ParseValue(ghost key: string) returns (value: string, last: bool)
      requires Valid()
      modifies this
      ensures Valid() && S.ParseValue(input, old(pos), key) == S.Section(key, value, last, pos)
    {
      var start := pos;
      while true
        invariant Valid() && start <= pos && S.SectionEnd(input, pos) == S.SectionEnd(input, start)
        decreases |input| - pos
      {
        var c, width := Peek();
        if S.IsSectionEnd(c) {
          last := S.IsLastSection(c);
          value := S.TrimSpace(input[start..pos]);
          pos := pos + width;
          return;
        }
        pos := pos + width;
      }
    }

    method ParseQuotedValue(quote: char, ghost key: string) returns (value: string, last: bool, error: Option<S.Error>)
      requires Valid() && pos < |input|
      modifies this
      ensures Valid()
      ensures match S.ParseQuotedValue(input, old(pos), quote, key)
              case Section(_, v, l, p) => error.None? && value == v && last == l && pos == p
              case Failed(e) => error == Some(e)
    {
      pos := pos + 1;
      var start := pos;
      var prev := S.EOF;
      value, last := "", false;
      while true
        invariant Valid() && start <= pos
        invariant S.QuoteEnd(input, pos, prev, quote) == S.QuoteEnd(input, start, S.EOF, quote)
        decreases |input| - pos
      {
        var c, width := Peek();
        if c == S.EOF {
          return "", false, Some(S.UnexpectedEnd(start));
        } else if c == quote && prev != '\\' {
          value := Unescape(input[start..pos], quote);
          pos := pos + width;
          SlurpSpaces();
          var after, afterWidth := Peek();
          last := S.IsLastSection(after);
          if !S.IsSectionEnd(after) {
            return value, last, Some(S.UnexpectedCharacter(after, pos));
          }
          pos := pos + afterWidth;
          return value, last, None;
        }
        prev := c;
        pos := pos + width;
      }
    }

    method ParseSection() returns (key: string, value: string, last: bool, error: Option<S.Error>)
      requires Valid()
      modifies this
      ensures Valid()
      ensures match S.ParseSection(input, old(pos))
              case Section(k, v, l, p) => error.None? && key == k && value == v && last == l && pos == p
              case Failed(e) => error == Some(e)
    {
      SlurpSpaces();
      key := ParseKey();
      var c, width := Peek();
      if S.IsSectionEnd(c) {
        pos := pos + width;
        return key, "", S.IsLastSection(c), None;
      } else if c == '"' || c == '\'' {
        value, last, error := ParseQuotedValue(c, key);
        return;
      }
      value, last := ParseValue(key);
      return key, value, last, None;
    }

    /** One turn of the loop over sections: read a section, apply it, skip spaces. */
    method ApplySection(record: ActionRecord, section: nat) returns (last: bool, error: Option<S.Error>)
      requires Valid()
      modifies this, record
      ensures Valid()
      ensures var whole := S.ParseAction(input, old(pos), old(record.value), section);
        if error.Some? then whole == S.Aborted(error.value)
        else if last then whole == S.Parsed(record.value, pos)
        else pos > old(pos) && whole == S.ParseAction(input, pos, record.value, section + 1)
    {
      var key, value, isLast, failure := ParseSection();
      if failure.Some? {
        return isLast, failure;
      }
      var rejection := record.Populate(section, key, value);
      if rejection.Some? {
        return isLast, rejection;
      }
      SlurpSpaces();
      return isLast, None;
    }

    method ParseAction() returns (action: S.Action, error: Option<S.Error>)
      requires Valid()
      modifies this
      ensures Valid()
      ensures match S.ParseAction(input, old(pos), S.NewAction(), 0)
              case Parsed(a, p) => error.None? && action == a && pos == p
              case Aborted(e) => error == Some(e)
    {
      var record := new ActionRecord();
      var section := 0;
      while true
        invariant Valid()
        invariant S.ParseAction(input, pos, record.value, section) == S.ParseAction(input, old(pos), S.NewAction(), 0)
        decreases |input| - pos
      {
        var last, failure := ApplySection(record, section);
        if failure.Some? || last {
          return record.value, failure;
        }
        section := section + 1;
      }
    }

    method Parse() returns (actions: seq<S.Action>, error: Option<S.Error>)
      requires Valid()
      modifies this
      ensures Valid()
      ensures match S.Parse(input, old(pos))
              case Actions(all) => error.None? && actions == all && pos == |input|
              case Invalid(e) => error == Some(e)
    {
      actions := [];
      ghost var whole := S.Parse(input, pos);
      while pos < |input|
        invariant Valid()
        invariant match S.Parse(input, pos)
                  case Actions(rest) => whole == S.Actions(actions + rest)
                  case Invalid(e) => whole == S.Invalid(e)
        decreases |input| - pos
      {
        ghost var before := S.Parse(input, pos);
        var a, failure := ParseAction();
        if failure.Some? {
          return [], failure;
        }
        ghost var rest := S.Parse(input, pos);
        if rest.Actions? {
          assert actions + ([a] + rest.actions) == (actions + [a]) + rest.actions;
        }
        actions := actions + [a];
      }
      return actions, None;
    }
  }
}
