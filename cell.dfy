/**
  A board cell: its fixed coordinates and the hint character the agent or
  the game currently records for it.
 */
module Cells {
  import opened Text

  /** The hint setHint stores: a tornado 't' revealed to the basic agent "P1" is recorded as '-'. */
  function StoredHint(h: char, agentType: string): (r: char)
    ensures r == h || (r == '-' && h == 't')
    ensures r == '-' && h != '-' <==> agentType == "P1" && h == 't'
  {
    if agentType == "P1" && h == 't' then '-' else h
  }

  /** The text toString renders for a cell: x, y, "Hint:" and the hint, separated by spaces. */
  function CellText(x: int, y: int, hint: char): (s: string)
    ensures hint != ' ' ==> Split(s, ' ') == [Decimal(x), Decimal(y), "Hint:", [hint]]
    ensures hint != ' ' ==> ParseInt(Split(s, ' ')[0]) == x && ParseInt(Split(s, ' ')[1]) == y
  {
    var s := Decimal(x) + " " + Decimal(y) + " " + "Hint: " + [hint];
    if hint != ' ' then
      CellTextFields(x, y, hint);
      s
    else s
  }

  lemma CellTextFields(x: int, y: int, hint: char)
    requires hint != ' '
    ensures Split(Decimal(x) + " " + Decimal(y) + " " + "Hint: " + [hint], ' ') == [Decimal(x), Decimal(y), "Hint:", [hint]]
    ensures ParseInt(Decimal(x)) == x && ParseInt(Decimal(y)) == y
  {
    DecimalRoundTrip(x);
    DecimalRoundTrip(y);
    NoSpace(Decimal(x));
    NoSpace(Decimal(y));
    SplitOne([hint], ' ');
    SplitCons("Hint:", ' ', [hint]);
    assert "Hint: " + [hint] == "Hint:" + [' '] + [hint];
    SplitCons(Decimal(y), ' ', "Hint: " + [hint]);
    assert Decimal(y) + " " + "Hint: " + [hint] == Decimal(y) + [' '] + ("Hint: " + [hint]);
    SplitCons(Decimal(x), ' ', Decimal(y) + " " + "Hint: " + [hint]);
    assert Decimal(x) + " " + Decimal(y) + " " + "Hint: " + [hint]
      == Decimal(x) + [' '] + (Decimal(y) + " " + "Hint: " + [hint]);
  }

  lemma NoSpace(s: string)
    requires forall k :: 0 <= k < |s| ==> IsDigit(s[k]) || s[k] == '-'
    ensures ' ' !in s
  {
  }

  class Cell {
    const x: int
    const y: int
    var hint: char

    /** Stores x, y and hint as given. */
    constructor(x: int, y: int, hint: char)
      ensures this.x == x && this.y == y && this.hint == hint
    {
      this.x := x;
      this.y := y;
      this.hint := hint;
    }

    /** The stored hint. */
    function GetHint(): (h: char)
      reads this
      ensures h == hint
    {
      hint
    }

    /** Stores h, except that a tornado revealed to "P1" is stored as '-'; x and y never change. */
    method SetHint(h: char, agentType: string)
      modifies this
      ensures hint == StoredHint(h, agentType)
      ensures h != 't' || agentType != "P1" ==> hint == h
    {
      hint := h;
      if agentType == "P1" && h == 't' {
        hint := '-';
      }
    }

    /** toString: the fields read back as x, y, "Hint:" and the hint. */
    function ToString(): (s: string)
      reads this
      ensures hint != ' ' ==> Split(s, ' ') == [Decimal(x), Decimal(y), "Hint:", [hint]]
      ensures hint != ' ' ==> ParseInt(Split(s, ' ')[0]) == x && ParseInt(Split(s, ' ')[1]) == y
    {
      CellText(x, y, hint)
    }
  }
}
