/** One message with an array of rows, as the encoders write it. */
module Samples {
  import opened BitLists
  import opened Writing
  import opened Fields
  import opened Definitions
  import AsciiText
  import opened AbbreviatedText
  import JsonScript
  import opened JsonText
  import opened Joining

  const NUMBER := Def([97], SIMPLE, 1, 1, false, false, false, 0, 0, [], 0, 0, None)
  const IN_ROW := Def([120], SIMPLE, 1, 1, false, false, false, 0, 0, [], 0, 0, None)
  const ROW := Layout(1, 0, [IN_ROW])
  const ARRAY := Def([114], FIELD_ARRAY, 4, 4, false, false, false, 0, 5, [], 4, 5, Some(ROW))

  /** A number, and two rows with a number each. */
  function Message(): Body {
    Body([7], [Flat([1, 2], 1)])
  }

  /** Numbers below ten as their digit. */
  function Digit(n: nat): seq<byte> {
    [48 + n % 10]
  }

  function DigitOf(d: Def, bytes: seq<byte>): Atom {
    if |bytes| == 1 then Put(Digit(bytes[0]), 0) else Refuse
  }

  function Digits(): Formats {
    Formats(DigitOf, DigitOf, (d: Def, bytes: seq<byte>) => [], Digit)
  }

  lemma RowsAre()
    ensures var v := Message().vars[0];
            && RowCount(v) == 2
            && RowBody(v, 0) == Body([1], []) && RowBody(v, 1) == Body([2], [])
            && RowsConform(v, [IN_ROW])
  {
    var v := Message().vars[0];
    assert v.bytes[0..1] == [1] && v.bytes[1..2] == [2];
    assert Conforms(Body([1], []), [IN_ROW]) && Conforms(Body([2], []), [IN_ROW]);
    forall i | 0 <= i < RowCount(v)
      ensures Conforms(RowBody(v, i), [IN_ROW])
    {
    }
  }

  lemma MessageConforms()
    ensures Conforms(Message(), [NUMBER, ARRAY]) && Conforms(Message(), [NUMBER]) && Conforms(Message(), [])
    ensures FieldConforms(Message(), NUMBER) && FieldConforms(Message(), ARRAY)
    ensures ValidFormats(Digits())
  {
    RowsAre();
  }

  lemma Scalars(n: byte)
    ensures FieldConforms(Body([n], []), IN_ROW) && Conforms(Body([n], []), [IN_ROW]) && Conforms(Body([n], []), [])
    ensures AsciiText.FieldTokens(Digits(), Body([n], []), IN_ROW) == [Digit(n)]
    ensures AsciiText.FieldTokens(Digits(), Message(), NUMBER) == [[55]]
  {
    assert [n][0..1] == [n] && [7][0..1] == [7];
  }

  lemma OneRowTokens(n: byte)
    ensures Conforms(Body([n], []), [IN_ROW])
    ensures AsciiText.BodyTokens(Digits(), Body([n], []), [IN_ROW]) == [Digit(n)]
    ensures forall level: nat :: BodyLines(Digits(), Body([n], []), [IN_ROW], level) == [Line(level, [Digit(n)])]
  {
    hide AsciiText.FieldTokens, FieldConforms;
    Scalars(n);
    assert [IN_ROW][..0] == [];
    forall level: nat
      ensures BodyLines(Digits(), Body([n], []), [IN_ROW], level) == [Line(level, [Digit(n)])]
    {
      assert BodyLines(Digits(), Body([n], []), [], level) == [Line(level, [])];
      assert [] + [Digit(n)] == [Digit(n)];
    }
  }

  /** In ASCII: 7,2,1,2, */
  lemma InAscii()
    ensures Conforms(Message(), [NUMBER, ARRAY])
    ensures AsciiText.BodyTokens(Digits(), Message(), [NUMBER, ARRAY]) == [[55], [50], [49], [50]]
  {
    hide AsciiText.FieldTokens, FieldConforms, Conforms;
    MessageConforms();
    Scalars(1);
    ArrayInAscii();
    var defs := [NUMBER, ARRAY];
    assert defs[..1] == [NUMBER] && [NUMBER][..0] == [];
    assert AsciiText.BodyTokens(Digits(), Message(), []) == [];
    assert AsciiText.BodyTokens(Digits(), Message(), [NUMBER]) == [] + [[55]];
  }

  lemma ArrayInAscii()
    ensures FieldConforms(Message(), ARRAY)
    ensures AsciiText.FieldTokens(Digits(), Message(), ARRAY) == [[50], [49], [50]]
  {
    hide AsciiText.BodyTokens, Conforms;
    RowsAre();
    OneRowTokens(1);
    OneRowTokens(2);
    var v := Message().vars[0];
    assert AsciiText.RowsTokens(Digits(), v, [IN_ROW], 0) == [];
    assert AsciiText.RowsTokens(Digits(), v, [IN_ROW], 1) == [] + [[49]];
    assert AsciiText.RowsTokens(Digits(), v, [IN_ROW], 2) == [[49]] + [[50]];
  }

  /** Abbreviated: the count ends the first line, and each row has a line one level deeper. */
  lemma InAbbreviatedAscii()
    ensures Conforms(Message(), [NUMBER, ARRAY])
    ensures BodyLines(Digits(), Message(), [NUMBER, ARRAY], 1) == [Line(1, [[55], [50]]), Line(2, [[49]]), Line(2, [[50]])]
  {
    hide WithField, FieldConforms, Conforms;
    MessageConforms();
    FieldLines();
    var defs := [NUMBER, ARRAY];
    assert defs[..1] == [NUMBER] && [NUMBER][..0] == [];
    assert BodyLines(Digits(), Message(), [], 1) == [Line(1, [])];
    assert BodyLines(Digits(), Message(), [NUMBER], 1) == [Line(1, [[55]])];
  }

  lemma FieldLines()
    ensures FieldConforms(Message(), NUMBER) && FieldConforms(Message(), ARRAY)
    ensures WithField(Digits(), Message(), NUMBER, 1, [Line(1, [])]) == [Line(1, [[55]])]
    ensures WithField(Digits(), Message(), ARRAY, 1, [Line(1, [[55]])])
         == [Line(1, [[55], [50]]), Line(2, [[49]]), Line(2, [[50]])]
  {
    hide AsciiText.FieldTokens, FieldConforms, Conforms, RowsLines;
    MessageConforms();
    Scalars(1);
    RowLines();
    assert [] + [[55]] == [[55]] && [[55]] + [[50]] == [[55], [50]];
    assert Continued([Line(1, [])], [[55]]) == [Line(1, [[55]])];
    assert Continued([Line(1, [[55]])], [[50]]) == [Line(1, [[55], [50]])];
  }

  lemma RowLines()
    ensures RowsConform(Message().vars[0], [IN_ROW]) && RowCount(Message().vars[0]) == 2
    ensures RowsLines(Digits(), Message().vars[0], [IN_ROW], 2, 2) == [Line(2, [[49]]), Line(2, [[50]])]
  {
    hide BodyLines, Conforms;
    RowsAre();
    OneRowTokens(1);
    OneRowTokens(2);
    var v := Message().vars[0];
    assert RowsLines(Digits(), v, [IN_ROW], 2, 0) == [];
    assert RowsLines(Digits(), v, [IN_ROW], 2, 1) == [] + [Line(2, [[49]])];
  }

  lemma OneRowJson(n: byte)
    ensures Conforms(Body([n], []), [IN_ROW]) && JsonScript.JsonDefs([IN_ROW])
    ensures JsonOf(Digits(), Body([n], []), [IN_ROW]) == Object([Member([120], Raw(Digit(n)))])
  {
    hide ValueOf, FieldConforms;
    Scalars(n);
    RowNumber(n);
    var b := Body([n], []);
    assert [IN_ROW][..0] == [] && JsonScript.JsonDefs([]);
    assert MembersOf(Digits(), b, []) == [];
    assert MembersOf(Digits(), b, [IN_ROW]) == [] + [Member([120], ValueOf(Digits(), b, IN_ROW))];
  }

  lemma RowNumber(n: byte)
    ensures FieldConforms(Body([n], []), IN_ROW) && JsonScript.JsonDef(IN_ROW)
    ensures ValueOf(Digits(), Body([n], []), IN_ROW) == Raw(Digit(n))
  {
    Scalars(n);
    assert [n][0..1] == [n];
  }

  /** In JSON: {"a": 7,"r": [{"x": 1},{"x": 2}]} */
  lemma InJson()
    ensures JsonScript.Encodable(Message(), [NUMBER, ARRAY])
    ensures JsonOf(Digits(), Message(), [NUMBER, ARRAY])
         == Object([Member([97], Raw([55])),
                    Member([114], Array([Object([Member([120], Raw([49]))]), Object([Member([120], Raw([50]))])]))])
  {
    hide ValueOf, FieldConforms, Conforms;
    MessageConforms();
    DefsAreJson();
    NumberInJson();
    ArrayInJson();
    var defs := [NUMBER, ARRAY];
    assert defs[..1] == [NUMBER] && [NUMBER][..0] == [];
    assert MembersOf(Digits(), Message(), []) == [];
    assert MembersOf(Digits(), Message(), [NUMBER]) == [] + [Member([97], Raw([55]))];
  }

  lemma SimpleInJson(f: Formats, b: Body, d: Def)
    requires FieldConforms(b, d) && JsonScript.JsonDef(d) && d.fieldType == SIMPLE
    ensures ValueOf(f, b, d) == Raw(Converted(f.json(d, Scalar(b, d))))
  {
  }

  lemma NumberInJson()
    ensures FieldConforms(Message(), NUMBER) && JsonScript.JsonDef(NUMBER)
    ensures ValueOf(Digits(), Message(), NUMBER) == Raw([55])
  {
    hide ValueOf, Conforms, RowsConform;
    MessageConforms();
    assert [7][0..1] == [7];
    SimpleInJson(Digits(), Message(), NUMBER);
  }

  lemma DefsAreJson()
    ensures JsonScript.JsonDefs([NUMBER, ARRAY]) && JsonScript.JsonDefs([NUMBER]) && JsonScript.JsonDefs([])
    ensures JsonScript.JsonDef(ARRAY)
  {
    assert [NUMBER, ARRAY][..1] == [NUMBER] && [NUMBER][..0] == [] && [IN_ROW][..0] == [];
    assert JsonScript.JsonDefs([IN_ROW]);
  }

  lemma ArrayInJson()
    ensures FieldConforms(Message(), ARRAY) && JsonScript.JsonDef(ARRAY)
    ensures ValueOf(Digits(), Message(), ARRAY)
         == Array([Object([Member([120], Raw([49]))]), Object([Member([120], Raw([50]))])])
  {
    hide RowsOf, JsonOf, Conforms;
    MessageConforms();
    DefsAreJson();
    RowsInJson();
  }

  lemma RowsInJson()
    ensures RowsConform(Message().vars[0], [IN_ROW]) && RowCount(Message().vars[0]) == 2 && JsonScript.JsonDefs([IN_ROW])
    ensures RowsOf(Digits(), Message().vars[0], [IN_ROW], 2)
         == [Object([Member([120], Raw([49]))]), Object([Member([120], Raw([50]))])]
  {
    hide JsonOf, Conforms;
    RowsAre();
    OneRowJson(1);
    OneRowJson(2);
    var v := Message().vars[0];
    assert RowsOf(Digits(), v, [IN_ROW], 0) == [];
    assert RowsOf(Digits(), v, [IN_ROW], 1) == [] + [Object([Member([120], Raw([49]))])];
  }

  lemma OneItem(j: Json)
    ensures RenderItems([j]) == [Render(j)]
  {
    hide Render;
    assert RenderItems([]) == [] && [j][..0] == [];
  }

  lemma TwoMembers(m: Member, n: Member)
    ensures RenderMembers([m]) == [RenderMember(m)]
    ensures RenderMembers([m, n]) == [RenderMember(m), RenderMember(n)]
  {
    hide RenderMember;
    assert RenderMembers([]) == [] && [m][..0] == [] && [m, n][..1] == [m];
  }

  /** The text of an object of that form, byte by byte. */
  lemma ObjectText(a: byte, x: byte, r: byte, b: byte, y: byte)
    ensures Render(Object([Member([a], Raw([x])), Member([r], Array([Object([Member([b], Raw([y]))])]))]))
         == [123, 34, a, 34, 58, 32, x, 44, 34, r, 34, 58, 32, 91, 123, 34, b, 34, 58, 32, y, 125, 93, 125]
  {
    hide Render, RenderMembers, RenderItems, RenderMember;
    var row := Object([Member([b], Raw([y]))]);
    TextOfNumber(b, y);
    TextOfNumber(a, x);
    TextOfRow(r, row);
    var text := RenderMember(Member([r], Array([row])));
    assert text == [34, r, 34, 58, 32, 91, 123, 34, b, 34, 58, 32, y, 125, 93];
    TextOfTwo(Member([a], Raw([x])), Member([r], Array([row])));
  }

  lemma TextOfNumber(name: byte, digit: byte)
    ensures RenderMember(Member([name], Raw([digit]))) == [34, name, 34, 58, 32, digit]
    ensures Render(Object([Member([name], Raw([digit]))])) == [123, 34, name, 34, 58, 32, digit, 125]
  {
    hide RenderMembers;
    TwoMembers(Member([name], Raw([digit])), Member([name], Raw([digit])));
  }

  lemma TextOfRow(name: byte, row: Json)
    ensures RenderMember(Member([name], Array([row]))) == [34, name, 34, 58, 32, 91] + Render(row) + [93]
  {
    hide RenderItems;
    OneItem(row);
    assert Render(Array([row])) == [91] + Render(row) + [93];
  }

  lemma TextOfTwo(m: Member, n: Member)
    ensures Render(Object([m, n])) == [123] + RenderMember(m) + [44] + RenderMember(n) + [125]
  {
    hide RenderMembers, RenderMember;
    TwoMembers(m, n);
    var parts := [RenderMember(m), RenderMember(n)];
    assert parts[..1] == [RenderMember(m)];
    assert Join(parts) == RenderMember(m) + [44] + RenderMember(n);
    assert Render(Object([m, n])) == [123] + Join(RenderMembers([m, n])) + [125];
  }
}
