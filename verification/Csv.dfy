/** The quoted-line parser of the inventory files. */
module Csv {

  /** `Skip` is an empty line, `Unterminated` an open quote at the end of a line. */
  datatype Parsed = Fields(fields: seq<string>) | Skip | Unterminated

  function TrimTrailing(s: string, c: char): (r: string)
    ensures r <= s
  {
    if s != [] && s[|s| - 1] == c then TrimTrailing(s[..|s| - 1], c) else s
  }

  /** Removes every trailing line feed and then every trailing carriage return. */
  function Trim(line: string): string {
    TrimTrailing(TrimTrailing(line, '\n'), '\r')
  }

  function ParseFields(cs: string, current: string, acc: seq<string>, quoted: bool): Parsed
    decreases |cs|
  {
    if cs == [] then
      if quoted then Unterminated else Fields(acc + [current])
    else if cs[0] == '"' && !quoted then ParseFields(cs[1..], current, acc, true)
    else if cs[0] == '"' then
      if |cs| > 1 && cs[1] == '"' then ParseFields(cs[2..], current + ['"'], acc, true)
      else ParseFields(cs[1..], current, acc, false)
    else if cs[0] == ',' && !quoted then ParseFields(cs[1..], [], acc + [current], false)
    else ParseFields(cs[1..], current + [cs[0]], acc, quoted)
  }

  function ParseLine(line: string): Parsed {
    var trimmed := Trim(line);
    if trimmed == "" then Skip else ParseFields(trimmed, [], [], false)
  }

  // ---------- What a line parses to: quotes and separators ----------

  function Quotes(cs: string): nat {
    if cs == [] then 0 else (if cs[0] == '"' then 1 else 0) + Quotes(cs[1..])
  }

  /** A comma with an even number of quotes before it; `odd` when one more stands before `cs`. */
  predicate Separates(cs: string, odd: bool, i: nat) {
    i < |cs| && cs[i] == ',' && (Quotes(cs[..i]) + (if odd then 1 else 0)) % 2 == 0
  }

  ghost function Separators(cs: string, odd: bool): set<nat> {
    set i: nat | i < |cs| && Separates(cs, odd, i)
  }

  lemma QuotesCons(cs: string, i: nat)
    requires 0 < i <= |cs|
    ensures Quotes(cs[..i]) == (if cs[0] == '"' then 1 else 0) + Quotes(cs[1..][..i - 1])
  {
    assert cs[..i][1..] == cs[1..][..i - 1];
  }

  ghost function Shifted(s: set<nat>): set<nat> {
    set i | i in s :: i + 1
  }

  lemma ShiftedHas(s: set<nat>, j: nat)
    ensures j in Shifted(s) <==> j > 0 && j - 1 in s
  {
    if j > 0 && j - 1 in s {
      assert (j - 1) + 1 == j;
    }
  }

  lemma {:induction false} ShiftedSize(s: set<nat>)
    ensures |Shifted(s)| == |s|
  {
    hide Shifted;
    if s == {} {
      forall j: nat ensures j !in Shifted(s) {
        ShiftedHas(s, j);
      }
      assert Shifted(s) == {};
    } else {
      var i :| i in s;
      var rest := s - {i};
      ShiftedSize(rest);
      forall j: nat ensures j in Shifted(s) <==> j in Shifted(rest) || j == i + 1 {
        ShiftedHas(s, j);
        ShiftedHas(rest, j);
      }
      ShiftedHas(rest, i + 1);
      assert Shifted(s) == Shifted(rest) + {i + 1};
    }
  }

  lemma SeparatesCons(cs: string, odd: bool, i: nat)
    requires cs != [] && 0 < i
    ensures Separates(cs, odd, i) <==> Separates(cs[1..], if cs[0] == '"' then !odd else odd, i - 1)
  {
    hide Quotes;
    if i < |cs| {
      QuotesCons(cs, i);
    }
  }

  lemma SeparatesHead(cs: string, odd: bool)
    requires cs != []
    ensures Separates(cs, odd, 0) <==> cs[0] == ',' && !odd
  {
    assert cs[..0] == [];
  }

  /** The separators of a line are its first character, if that is one, and those of the rest. */
  lemma SeparatorsCons(cs: string, odd: bool)
    requires cs != []
    ensures var odd' := if cs[0] == '"' then !odd else odd;
            |Separators(cs, odd)|
              == (if cs[0] == ',' && !odd then 1 else 0) + |Separators(cs[1..], odd')|
  {
    hide Separates, Quotes, Shifted;
    var odd' := if cs[0] == '"' then !odd else odd;
    var head: set<nat> := if cs[0] == ',' && !odd then {0} else {};
    var rest := Separators(cs[1..], odd');
    SeparatesHead(cs, odd);
    forall i: nat ensures i in Separators(cs, odd) <==> i in head || i in Shifted(rest) {
      ShiftedHas(rest, i);
      if i > 0 {
        SeparatesCons(cs, odd, i);
      }
    }
    ShiftedHas(rest, 0);
    assert Separators(cs, odd) == head + Shifted(rest);
    assert head !! Shifted(rest);
    ShiftedSize(rest);
  }

  /** The parser ends inside a quote exactly when the number of quotes says so, and otherwise has cut
      the text at its separators. */
  lemma {:induction false} ParseShape(cs: string, current: string, acc: seq<string>, quoted: bool)
    ensures var r := ParseFields(cs, current, acc, quoted);
            var open := (Quotes(cs) + (if quoted then 1 else 0)) % 2 == 1;
            && (open ==> r == Unterminated)
            && (!open ==> r.Fields? && |r.fields| == |acc| + 1 + |Separators(cs, quoted)|)
    decreases |cs|
  {
    hide Separators;
    if cs == [] {
      NoSeparators(quoted);
    } else {
      SeparatorsCons(cs, quoted);
      if cs[0] == '"' && !quoted {
        ParseShape(cs[1..], current, acc, true);
      } else if cs[0] == '"' {
        if |cs| > 1 && cs[1] == '"' {
          SeparatorsCons(cs[1..], false);
          assert cs[1..][1..] == cs[2..];
          ParseShape(cs[2..], current + ['"'], acc, true);
        } else {
          ParseShape(cs[1..], current, acc, false);
        }
      } else if cs[0] == ',' && !quoted {
        ParseShape(cs[1..], [], acc + [current], false);
      } else {
        ParseShape(cs[1..], current + [cs[0]], acc, quoted);
      }
    }
  }

  lemma NoSeparators(odd: bool)
    ensures Separators([], odd) == {}
  {
  }

  /** Every line: an empty one is skipped, one with an odd number of quotes is an error, and any other
      has one field more than it has commas behind an even number of quotes. */
  lemma LineOutcome(line: string)
    ensures ParseLine(line).Skip? <==> Trim(line) == ""
    ensures ParseLine(line).Unterminated? <==> Quotes(Trim(line)) % 2 == 1
    ensures ParseLine(line).Fields? ==> |ParseLine(line).fields| == 1 + |Separators(Trim(line), false)|
  {
    ParseShape(Trim(line), [], [], false);
  }

  // ---------- What a line parses to: the contents of its fields ----------

  /** The separators before position i, which is the field that the position belongs to. */
  function FieldNumber(cs: string, i: nat): nat
    requires i <= |cs|
  {
    if i == 0 then 0 else FieldNumber(cs, i - 1) + if Separates(cs, false, i - 1) then 1 else 0
  }

  /** Every character that is not a separator belongs to a field, except quotes; of these only one that
      follows another and has an even number of them before it does. */
  predicate Kept(cs: string, i: nat)
    requires i < |cs|
  {
    && !Separates(cs, false, i)
    && (cs[i] == '"' ==> i > 0 && cs[i - 1] == '"' && Quotes(cs[..i]) % 2 == 0)
  }

  /** The characters of field k before position i. */
  function Content(cs: string, k: nat, i: nat): string
    requires i <= |cs|
  {
    if i == 0 then []
    else Content(cs, k, i - 1) + if FieldNumber(cs, i - 1) == k && Kept(cs, i - 1) then [cs[i - 1]] else []
  }

  lemma {:induction false} LaterFieldEmpty(cs: string, k: nat, i: nat)
    requires i <= |cs| && k > FieldNumber(cs, i)
    ensures Content(cs, k, i) == []
  {
    if i > 0 {
      LaterFieldEmpty(cs, k, i - 1);
    }
  }

  lemma {:induction false} QuotesSnoc(cs: string, c: char)
    ensures Quotes(cs + [c]) == Quotes(cs) + if c == '"' then 1 else 0
  {
    if cs == [] {
      assert Quotes([]) == 0 && ([] + [c])[1..] == [];
    } else {
      assert (cs + [c])[1..] == cs[1..] + [c] && (cs + [c])[0] == cs[0];
      QuotesSnoc(cs[1..], c);
    }
  }

  /** The parser at position i: it knows the fields before it, and it is between quotes if their number so
      far is odd.  Outside of them a quote does not directly follow another one. */
  ghost predicate ParsedTo(cs: string, i: nat, current: string, acc: seq<string>, quoted: bool) {
    && i <= |cs|
    && FieldNumber(cs, i) == |acc|
    && current == Content(cs, |acc|, i)
    && (forall k: nat | k < |acc| :: acc[k] == Content(cs, k, i))
    && (quoted <==> Quotes(cs[..i]) % 2 == 1)
    && (!quoted && 0 < i < |cs| && cs[i - 1] == '"' ==> cs[i] != '"')
  }

  /** One character is a separator, part of the current field, or a quote that is left out. */
  lemma OnePast(cs: string, i: nat, current: string, acc: seq<string>, quoted: bool)
    requires ParsedTo(cs, i, current, acc, quoted) && i < |cs|
    ensures Separates(cs, false, i) <==> cs[i] == ',' && !quoted
    ensures cs[i] == ',' && !quoted ==> ParsedTo(cs, i + 1, [], acc + [current], false)
    ensures cs[i] != '"' && (cs[i] == ',' ==> quoted) ==> ParsedTo(cs, i + 1, current + [cs[i]], acc, quoted)
    ensures cs[i] == '"' && !quoted ==> ParsedTo(cs, i + 1, current, acc, true)
  {
    hide Quotes;
    assert cs[..i + 1] == cs[..i] + [cs[i]];
    QuotesSnoc(cs[..i], cs[i]);
    if cs[i] == ',' && !quoted {
      LaterFieldEmpty(cs, |acc| + 1, i);
      assert !Kept(cs, i);
    } else if cs[i] != '"' {
      assert Kept(cs, i);
    }
  }

  /** A quote between quotes closes them, unless another one follows, of which one is kept. */
  lemma QuotePast(cs: string, i: nat, current: string, acc: seq<string>)
    requires ParsedTo(cs, i, current, acc, true) && i < |cs| && cs[i] == '"'
    ensures if i + 1 < |cs| && cs[i + 1] == '"' then ParsedTo(cs, i + 2, current + ['"'], acc, true)
            else ParsedTo(cs, i + 1, current, acc, false)
  {
    hide Quotes;
    assert cs[..i + 1] == cs[..i] + [cs[i]];
    QuotesSnoc(cs[..i], cs[i]);
    assert !Separates(cs, false, i) && !Kept(cs, i);
    assert Content(cs, |acc|, i + 1) == current && FieldNumber(cs, i + 1) == |acc|;
    if i + 1 < |cs| && cs[i + 1] == '"' {
      assert cs[..i + 2] == cs[..i + 1] + [cs[i + 1]];
      QuotesSnoc(cs[..i + 1], cs[i + 1]);
      assert !Separates(cs, false, i + 1) && Kept(cs, i + 1);
      assert FieldNumber(cs, i + 2) == |acc| && Content(cs, |acc|, i + 2) == current + ['"'];
      forall k: nat | k < |acc| ensures acc[k] == Content(cs, k, i + 2) {
        assert Content(cs, k, i + 1) == Content(cs, k, i);
      }
    }
  }

  lemma {:induction false} ParseContents(cs: string, i: nat, current: string, acc: seq<string>, quoted: bool)
    requires ParsedTo(cs, i, current, acc, quoted)
    ensures var r := ParseFields(cs[i..], current, acc, quoted);
            r.Fields? ==> && |r.fields| == 1 + FieldNumber(cs, |cs|)
                          && forall k: nat | k < |r.fields| :: r.fields[k] == Content(cs, k, |cs|)
    decreases |cs| - i
  {
    if i < |cs| {
      var rest := cs[i..];
      assert rest[1..] == cs[i + 1..];
      if cs[i] == '"' && quoted {
        QuotePast(cs, i, current, acc);
        if i + 1 < |cs| && cs[i + 1] == '"' {
          assert rest[2..] == cs[i + 2..];
          ParseContents(cs, i + 2, current + ['"'], acc, true);
        } else {
          ParseContents(cs, i + 1, current, acc, false);
        }
      } else {
        OnePast(cs, i, current, acc, quoted);
        if cs[i] == '"' {
          ParseContents(cs, i + 1, current, acc, true);
        } else if cs[i] == ',' && !quoted {
          ParseContents(cs, i + 1, [], acc + [current], false);
        } else {
          ParseContents(cs, i + 1, current + [cs[i]], acc, quoted);
        }
      }
    }
  }

  /** The fields of every line that is not empty and has an even number of quotes, character by
      character. */
  lemma LineContents(line: string)
    requires Trim(line) != "" && Quotes(Trim(line)) % 2 == 0
    ensures var t := Trim(line);
            ParseLine(line) == Fields(seq(1 + FieldNumber(t, |t|), (k: nat) => Content(t, k, |t|)))
  {
    var t := Trim(line);
    ParseShape(t, [], [], false);
    assert t[..0] == [] && t[0..] == t;
    ParseContents(t, 0, [], [], false);
  }

  // ---------- Round trip ----------

  /** The text of a field between quotes: each quote is doubled. */
  function Escaped(field: string): string {
    if field == [] then []
    else (if field[0] == '"' then ['"', '"'] else [field[0]]) + Escaped(field[1..])
  }

  /** A field that needs no quotes. */
  predicate Plain(field: string) {
    '"' !in field && ',' !in field
  }

  /** A field and whether it is written between quotes; one that is not must be plain. */
  datatype Cell = Cell(text: string, enclosed: bool) {
    predicate Valid() {
      enclosed || Plain(text)
    }

    function Written(): string {
      if enclosed then ['"'] + Escaped(text) + ['"'] else text
    }
  }

  function Rendered(cells: seq<Cell>): string
    requires cells != []
  {
    if |cells| == 1 then cells[0].Written()
    else cells[0].Written() + [','] + Rendered(cells[1..])
  }

  function Texts(cells: seq<Cell>): (texts: seq<string>)
    ensures |texts| == |cells|
  {
    if cells == [] then [] else [cells[0].text] + Texts(cells[1..])
  }

  /** What may follow a cell. */
  predicate Follows(rest: string) {
    rest == [] || rest[0] == ','
  }

  lemma {:induction false} EscapedParses(field: string, rest: string, current: string, acc: seq<string>)
    requires Follows(rest)
    ensures ParseFields(Escaped(field) + ['"'] + rest, current, acc, true)
         == ParseFields(rest, current + field, acc, false)
    decreases |field|
  {
    var cs := Escaped(field) + ['"'] + rest;
    if field == [] {
      assert cs[1..] == rest && current + [] == current;
    } else {
      var tail := Escaped(field[1..]) + ['"'] + rest;
      EscapedParses(field[1..], rest, current + [field[0]], acc);
      assert current + [field[0]] + field[1..] == current + field;
      if field[0] == '"' {
        assert cs == ['"', '"'] + tail;
        assert cs[2..] == tail;
      } else {
        assert cs == [field[0]] + tail;
        assert cs[1..] == tail;
      }
    }
  }

  lemma {:induction false} PlainParses(field: string, rest: string, current: string, acc: seq<string>)
    requires Plain(field)
    ensures ParseFields(field + rest, current, acc, false) == ParseFields(rest, current + field, acc, false)
    decreases |field|
  {
    if field == [] {
      assert field + rest == rest && current + field == current;
    } else {
      assert (field + rest)[1..] == field[1..] + rest;
      PlainParses(field[1..], rest, current + [field[0]], acc);
      assert current + [field[0]] + field[1..] == current + field;
    }
  }

  lemma CellParses(cell: Cell, rest: string, acc: seq<string>)
    requires cell.Valid() && Follows(rest)
    ensures ParseFields(cell.Written() + rest, [], acc, false) == ParseFields(rest, cell.text, acc, false)
  {
    hide Escaped, Plain;
    if cell.enclosed {
      assert (cell.Written() + rest)[1..] == Escaped(cell.text) + ['"'] + rest;
      EscapedParses(cell.text, rest, [], acc);
      assert [] + cell.text == cell.text;
    } else {
      PlainParses(cell.text, rest, [], acc);
      assert [] + cell.text == cell.text;
    }
  }

  lemma {:induction false} RenderedParses(cells: seq<Cell>, acc: seq<string>)
    requires cells != [] && forall c <- cells :: c.Valid()
    ensures ParseFields(Rendered(cells), [], acc, false) == Fields(acc + Texts(cells))
    decreases |cells|
  {
    var cell := cells[0];
    hide ParseFields;
    if |cells| == 1 {
      CellParses(cell, [], acc);
      LastParses(cell.text, acc);
      assert cell.Written() + [] == cell.Written();
      assert Texts(cells) == [cell.text];
    } else {
      var rest := Rendered(cells[1..]);
      assert Rendered(cells) == cell.Written() + ([','] + rest);
      CellParses(cell, [','] + rest, acc);
      CommaParses(rest, cell.text, acc);
      RenderedParses(cells[1..], acc + [cell.text]);
      assert acc + [cell.text] + Texts(cells[1..]) == acc + Texts(cells);
    }
  }

  lemma LastParses(current: string, acc: seq<string>)
    ensures ParseFields([], current, acc, false) == Fields(acc + [current])
  {
  }

  lemma CommaParses(rest: string, current: string, acc: seq<string>)
    ensures ParseFields([','] + rest, current, acc, false) == ParseFields(rest, [], acc + [current], false)
  {
    assert ([','] + rest)[1..] == rest;
  }

  predicate IsBreak(c: char) {
    c == '\n' || c == '\r'
  }

  predicate EndsInBreak(s: string) {
    s != [] && IsBreak(s[|s| - 1])
  }

  function Repeated(c: char, n: nat): string {
    if n == 0 then [] else Repeated(c, n - 1) + [c]
  }

  lemma {:induction false} TrimRepeated(s: string, c: char, n: nat)
    ensures TrimTrailing(s + Repeated(c, n), c) == TrimTrailing(s, c)
    decreases n
  {
    if n == 0 {
      assert s + [] == s;
    } else {
      var t := s + Repeated(c, n);
      assert t[..|t| - 1] == s + Repeated(c, n - 1);
      TrimRepeated(s, c, n - 1);
    }
  }

  /** A line end of any number of carriage returns and then line feeds is removed, and no more. */
  lemma TrimRemovesLineEnd(s: string, crs: nat, lfs: nat)
    requires !EndsInBreak(s)
    ensures Trim(s + Repeated('\r', crs) + Repeated('\n', lfs)) == s
  {
    var t := s + Repeated('\r', crs);
    TrimRepeated(t, '\n', lfs);
    TrimRepeated(s, '\r', crs);
    assert crs == 0 ==> t == s;
  }

  /** Whatever is written is read back, with any line end, when the written line neither is empty nor
      ends in a line break of its own. */
  lemma RoundTrip(cells: seq<Cell>, crs: nat, lfs: nat)
    requires cells != [] && forall c <- cells :: c.Valid()
    requires Rendered(cells) != "" && !EndsInBreak(Rendered(cells))
    ensures ParseLine(Rendered(cells) + Repeated('\r', crs) + Repeated('\n', lfs)) == Fields(Texts(cells))
  {
    TrimRemovesLineEnd(Rendered(cells), crs, lfs);
    RenderedParses(cells, []);
  }

  function Enclosed(fields: seq<string>): (cells: seq<Cell>)
    ensures |cells| == |fields|
  {
    if fields == [] then [] else [Cell(fields[0], true)] + Enclosed(fields[1..])
  }

  lemma {:induction false} EnclosedHolds(fields: seq<string>)
    ensures forall c <- Enclosed(fields) :: c.Valid()
    ensures Texts(Enclosed(fields)) == fields
    ensures fields != [] ==> var r := Rendered(Enclosed(fields)); r != "" && r[|r| - 1] == '"'
  {
    if fields != [] {
      EnclosedHolds(fields[1..]);
    }
  }

  /** Between quotes every nonempty list of fields, of any characters, survives. */
  lemma QuotedRoundTrip(fields: seq<string>, crs: nat, lfs: nat)
    requires fields != []
    ensures ParseLine(Rendered(Enclosed(fields)) + Repeated('\r', crs) + Repeated('\n', lfs)) == Fields(fields)
  {
    EnclosedHolds(fields);
    RoundTrip(Enclosed(fields), crs, lfs);
  }

  // ---------- When a written line is read back ----------

  /** The cell that is left when the breaks at the end of a bare cell are trimmed. */
  function Trimmed(cell: Cell): Cell {
    if cell.enclosed then cell else Cell(Trim(cell.text), false)
  }

  function WithLastTrimmed(cells: seq<Cell>): (r: seq<Cell>)
    requires cells != []
    ensures |r| == |cells|
  {
    cells[..|cells| - 1] + [Trimmed(cells[|cells| - 1])]
  }

  lemma {:induction false} TrimBehind(s: string, t: string, c: char)
    requires t == [] ==> s == [] || s[|s| - 1] != c
    requires forall i | 0 <= i < |t| :: t[i] == c ==> s == [] || s[|s| - 1] != c
    ensures TrimTrailing(s + t, c) == s + TrimTrailing(t, c)
    decreases |t|
  {
    if t == [] {
      assert s + t == s;
    } else {
      assert s + t[..|t| - 1] == (s + t)[..|s + t| - 1];
      if t[|t| - 1] == c {
        TrimBehind(s, t[..|t| - 1], c);
      }
    }
  }

  /** Trimming stops at a separator. */
  lemma TrimCell(s: string, t: string)
    requires s == [] || !EndsInBreak(s)
    ensures Trim(s + t) == s + Trim(t)
  {
    TrimBehind(s, t, '\n');
    TrimBehind(s, TrimTrailing(t, '\n'), '\r');
  }

  lemma TrimEnclosed(cell: Cell)
    ensures Trim(cell.Written()) == Trimmed(cell).Written()
  {
  }

  lemma {:induction false} TrimRendered(cells: seq<Cell>)
    requires cells != []
    ensures Trim(Rendered(cells)) == Rendered(WithLastTrimmed(cells))
    decreases |cells|
  {
    hide Trim;
    var cell := cells[0];
    if |cells| == 1 {
      TrimEnclosed(cell);
      assert WithLastTrimmed(cells) == [Trimmed(cell)];
    } else {
      TrimRendered(cells[1..]);
      TrimCell(cell.Written() + [','], Rendered(cells[1..]));
      assert WithLastTrimmed(cells) == [cell] + WithLastTrimmed(cells[1..]);
      assert WithLastTrimmed(cells)[1..] == WithLastTrimmed(cells[1..]);
    }
  }

  lemma TrimShortens(s: string)
    ensures |Trim(s)| <= |s|
    ensures Trim(s) == s <==> !EndsInBreak(s)
  {
    var t := TrimTrailing(s, '\n');
    assert |t| <= |s| && (|t| == |s| ==> t == s);
  }

  lemma {:induction false} TextsAt(cells: seq<Cell>, i: nat)
    requires i < |cells|
    ensures Texts(cells)[i] == cells[i].text
  {
    if i > 0 {
      TextsAt(cells[1..], i - 1);
    }
  }

  lemma TrimKeepsPlain(s: string)
    ensures Plain(s) ==> Plain(Trim(s))
  {
    var t := TrimTrailing(s, '\n');
    assert t <= s && Trim(s) <= t;
  }

  lemma TrimKeepsValid(cells: seq<Cell>)
    requires cells != [] && forall c <- cells :: c.Valid()
    ensures forall c <- WithLastTrimmed(cells) :: c.Valid()
  {
    hide Trim, Plain;
    var last := |cells| - 1;
    TrimKeepsPlain(cells[last].text);
    assert cells[last] in cells && Trimmed(cells[last]).Valid();
    forall c | c in WithLastTrimmed(cells) ensures c.Valid() {
      assert c in cells[..last] || c == Trimmed(cells[last]);
    }
  }

  /** A written line is read back if and only if it is not empty and does not end in a line break. */
  lemma ReadBackExactly(cells: seq<Cell>)
    requires cells != [] && forall c <- cells :: c.Valid()
    ensures ParseLine(Rendered(cells)) == Fields(Texts(cells)) <==>
            Rendered(cells) != "" && !EndsInBreak(Rendered(cells))
  {
    hide Trim, Plain, Rendered, Texts, ParseFields;
    var line, last := Rendered(cells), |cells| - 1;
    var cells' := WithLastTrimmed(cells);
    TrimRendered(cells);
    TrimShortens(line);
    TrimKeepsValid(cells);
    RenderedParses(cells', []);
    if EndsInBreak(line) {
      TextsAt(cells, last);
      TextsAt(cells', last);
      assert cells[last].text == cells'[last].text ==> cells' == cells;
    } else {
      RenderedParses(cells, []);
    }
  }
}
