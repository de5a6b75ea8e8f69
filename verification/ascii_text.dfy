/** The tokens of an ASCII body, and that EncodeAsciiBody writes them joined by commas. */
module AsciiText {
  import opened BitLists
  import opened Writing
  import opened Fields
  import opened Joining
  import opened AsciiScript
  import opened AsciiMeaning

  // ---------------------------------------------------------------- tokens

  /** The tokens of an array: a count for variable ones, then one for each element, or one for all
      of them where the elements are not separated. */
  ghost function ArrayTokens(f: Formats, b: Body, d: Def): seq<seq<byte>>
    requires FieldConforms(b, d) && IsArray(d)
  {
    var texts := ElementTexts(f.ascii, b, d, Shown(b, d, 0));
    (if d.fieldType == VARIABLE_LENGTH_ARRAY then [f.decimal(ElementCount(b, d))] else []) +
    (if d.isCsv then texts else if d.isString then [Quote(Concat(texts))] else [Concat(texts)])
  }

  ghost function FieldTokens(f: Formats, b: Body, d: Def): seq<seq<byte>>
    requires FieldConforms(b, d)
    decreases d, 0
  {
    if d.fieldType == FIELD_ARRAY then
      if d.index >= |b.vars| || d.info.None? then []
      else
        var v := b.vars[d.index];
        [f.decimal(RowCount(v))] + RowsTokens(f, v, d.info.value.fields, RowCount(v))
    else if d.fieldType == STRING then [Quote(b.vars[d.index].text)]
    else if d.fieldType == RESPONSE_STR then [b.vars[d.index].text]
    else if d.fieldType == RESPONSE_ID then []
    else if d.fieldType == ENUM then [f.enumerator(d, Scalar(b, d))]
    else if d.fieldType == SIMPLE then [Converted(f.ascii(d, Scalar(b, d)))]
    else ArrayTokens(f, b, d)
  }

  /** The rows of a field array, one after another. */
  ghost function RowsTokens(f: Formats, v: Var, defs: seq<Def>, n: nat): seq<seq<byte>>
    requires RowsConform(v, defs) && n <= RowCount(v)
    decreases defs, 2, n
  {
    if n == 0 then [] else RowsTokens(f, v, defs, n - 1) + BodyTokens(f, RowBody(v, n - 1), defs)
  }

  /** The tokens of the fields in order. */
  ghost function BodyTokens(f: Formats, b: Body, defs: seq<Def>): seq<seq<byte>>
    requires Conforms(b, defs)
    decreases defs, 0, 0
  {
    if defs == [] then []
    else BodyTokens(f, b, defs[..|defs| - 1]) + FieldTokens(f, b, defs[|defs| - 1])
  }

  // ---------------------------------------------------------------- what the script writes

  /** The tokens with the separator behind each. */
  function Followed(tokens: seq<seq<byte>>, separator: byte): seq<byte> {
    if tokens == [] then [] else Followed(tokens[..|tokens| - 1], separator) + tokens[|tokens| - 1] + [separator]
  }

  lemma FollowedEnds(tokens: seq<seq<byte>>, last: seq<byte>, separator: byte)
    ensures Followed(tokens + [last], separator) == Followed(tokens, separator) + last + [separator]
  {
    assert (tokens + [last])[..|tokens|] == tokens;
  }

  lemma {:induction false} FollowedByCommas(tokens: seq<seq<byte>>)
    ensures Followed(tokens, COMMA) == Trailing(tokens)
  {
    if tokens != [] {
      FollowedByCommas(tokens[..|tokens| - 1]);
    }
  }

  /** The script writes the tokens, a comma behind each, or a space in the abbreviated form. */
  ghost predicate Tokens(s: Script, tokens: seq<seq<byte>>, abbreviated: bool) {
    OnlyPuts(s) && TextOf(s) == Followed(tokens, if abbreviated then SPACE else COMMA)
  }

  lemma {:induction false} FollowedConcat(a: seq<seq<byte>>, b: seq<seq<byte>>, separator: byte)
    ensures Followed(a + b, separator) == Followed(a, separator) + Followed(b, separator)
    decreases |b|
  {
    if b == [] {
      assert a + b == a;
    } else {
      var n := |b| - 1;
      assert a + b == (a + b[..n]) + [b[n]] && b == b[..n] + [b[n]];
      FollowedConcat(a, b[..n], separator);
      FollowedEnds(a + b[..n], b[n], separator);
      FollowedEnds(b[..n], b[n], separator);
    }
  }

  lemma TokensThen(s: Script, a: seq<seq<byte>>, t: Script, b: seq<seq<byte>>, abbreviated: bool)
    requires Tokens(s, a, abbreviated) && Tokens(t, b, abbreviated)
    ensures Tokens(s + t, a + b, abbreviated)
  {
    hide TextOf, Followed;
    TextConcat(s, t);
    FollowedConcat(a, b, if abbreviated then SPACE else COMMA);
  }

  lemma NoTokens(abbreviated: bool)
    ensures Tokens([], [], abbreviated) && Tokens([Refuse], [], abbreviated)
  {
  }

  /** A token written in one text and the separator in the next. */
  lemma OneToken(a: Atom, abbreviated: bool)
    requires a.Put? || a.Refuse?
    ensures Tokens([a] + Text([Separator(abbreviated)]), [Converted(a)], abbreviated)
  {
    AtomText(a);
    OneText([Separator(abbreviated)]);
    TextConcat([a], Text([Separator(abbreviated)]));
    OneFollowed(Converted(a), Separator(abbreviated));
  }

  lemma AtomText(a: Atom)
    requires a.Put? || a.Refuse?
    ensures OnlyPuts([a]) && TextOf([a]) == Converted(a)
  {
    assert [a][..0] == [];
  }

  lemma OneFollowed(token: seq<byte>, separator: byte)
    ensures Followed([token], separator) == token + [separator]
  {
    FollowedEnds([], token, separator);
    assert [] + [token] == [token];
  }

  lemma TokenTexts(token: seq<byte>, abbreviated: bool)
    ensures var separator := [Separator(abbreviated)];
            && Tokens(Texts([token, separator]), [token], abbreviated)
            && Tokens(Texts([[QUOTE], token, [QUOTE], separator]), [Quote(token)], abbreviated)
  {
    var separator := [Separator(abbreviated)];
    OneToken(Put(token, 0), abbreviated);
    assert Texts([token, separator]) == [Put(token, 0)] + Text(separator);
    var s := Text([QUOTE]) + Text(token) + Text([QUOTE]);
    assert Texts([[QUOTE], token, [QUOTE], separator]) == s + Text(separator);
    OneText([QUOTE]);
    OneText(token);
    OneText(separator);
    TextConcat(Text([QUOTE]), Text(token));
    TextConcat(Text([QUOTE]) + Text(token), Text([QUOTE]));
    TextConcat(s, Text(separator));
    OneFollowed(Quote(token), Separator(abbreviated));
  }

  lemma {:induction false} ElementsText(f: Formats, b: Body, d: Def, abbreviated: bool, n: nat)
    requires ValidFormats(f) && FieldConforms(b, d) && IsArray(d) && n <= ElementCount(b, d)
    ensures var s, texts := ElementsScript(f, b, d, abbreviated, n), ElementTexts(f.ascii, b, d, n);
            && OnlyPuts(s) && TextOf(s) == if d.isCsv then Followed(texts, Separator(abbreviated)) else Concat(texts)
  {
    hide FieldConforms, TextOf, Followed, Concat, OnlyPuts, Separator;
    if n == 0 {
      EmptyText(Separator(abbreviated));
    } else {
      ElementsText(f, b, d, abbreviated, n - 1);
      var before, texts := ElementsScript(f, b, d, abbreviated, n - 1), ElementTexts(f.ascii, b, d, n - 1);
      var a := f.ascii(d, Element(b, d, n - 1));
      AtomText(a);
      TextConcat(before, [a]);
      ConcatEnds(texts, Converted(a));
      FollowedEnds(texts, Converted(a), Separator(abbreviated));
      if d.isCsv {
        OneText([Separator(abbreviated)]);
        TextConcat(before + [a], Text([Separator(abbreviated)]));
      } else {
        assert before + [a] + [] == before + [a];
      }
    }
  }

  lemma EmptyText(separator: byte)
    ensures OnlyPuts([]) && TextOf([]) == [] && Followed([], separator) == [] && Concat([]) == []
  {
  }

  /** The elements in their quotes, or with their own separators. */
  lemma ArrayValueText(d: Def, abbreviated: bool, elements: Script, texts: seq<seq<byte>>)
    requires OnlyPuts(elements)
    requires TextOf(elements) == (if d.isCsv then Followed(texts, Separator(abbreviated)) else Concat(texts))
    requires d.isCsv ==> !d.isString
    ensures Tokens((if d.isString then Text([QUOTE]) else []) + elements + ArrayTail(d, abbreviated),
                   if d.isCsv then texts else if d.isString then [Quote(Concat(texts))] else [Concat(texts)], abbreviated)
  {
    hide TextOf, Followed, Concat, OnlyPuts;
    var quote := if d.isString then Text([QUOTE]) else [];
    if d.isCsv {
      assert quote + elements + ArrayTail(d, abbreviated) == elements;
    } else {
      var separator := Separator(abbreviated);
      EmptyText(separator);
      OneText([QUOTE]);
      OneText([separator]);
      TextConcat(quote, elements);
      TextConcat(quote + elements, quote);
      TextConcat(quote + elements + quote, Text([separator]));
      assert quote + elements + ArrayTail(d, abbreviated) == quote + elements + quote + Text([separator]);
      OneFollowed(if d.isString then Quote(Concat(texts)) else Concat(texts), separator);
    }
  }

  lemma ArrayText(f: Formats, b: Body, d: Def, abbreviated: bool)
    requires ValidFormats(f) && FieldConforms(b, d) && IsArray(d) && (d.isCsv ==> !d.isString)
    ensures Tokens(ValueScript(f, b, d, abbreviated), ArrayTokens(f, b, d), abbreviated)
  {
    hide FieldConforms, TextOf, Followed, Concat, OnlyPuts, ElementsScript, ElementTexts, Shown, Tokens, ArrayTail, Quote,
         Separator;
    var n := Shown(b, d, 0);
    var elements, texts := ElementsScript(f, b, d, abbreviated, n), ElementTexts(f.ascii, b, d, n);
    var count, separator := f.decimal(ElementCount(b, d)), [Separator(abbreviated)];
    var quote := if d.isString then Text([QUOTE]) else [];
    var value := quote + elements + ArrayTail(d, abbreviated);
    var rest := if d.isCsv then texts else if d.isString then [Quote(Concat(texts))] else [Concat(texts)];
    ElementsText(f, b, d, abbreviated, n);
    ArrayValueText(d, abbreviated, elements, texts);
    TokenTexts(count, abbreviated);
    NoTokens(abbreviated);
    if d.fieldType == VARIABLE_LENGTH_ARRAY {
      TokensThen(Texts([count, separator]), [count], value, rest, abbreviated);
      assert ValueScript(f, b, d, abbreviated) == Texts([count, separator]) + value;
    } else {
      assert ValueScript(f, b, d, abbreviated) == value && ArrayTokens(f, b, d) == rest;
    }
  }

  /** A field that is no FIELD_ARRAY is written as its tokens, in either form. */
  lemma PlainFieldText(f: Formats, b: Body, d: Def, abbreviated: bool, indents: nat)
    requires ValidFormats(f) && FieldConforms(b, d) && CsvDef(d) && d.fieldType != FIELD_ARRAY
    ensures Tokens(FieldScript(f, b, d, abbreviated, indents), FieldTokens(f, b, d), abbreviated)
  {
    hide ValidFormats, ValueScript, ArrayTokens, Conforms, CsvDefs, Tokens, Converted, Separator;
    if d.fieldType == STRING || d.fieldType == RESPONSE_STR {
      TokenTexts(b.vars[d.index].text, abbreviated);
    } else if d.fieldType == RESPONSE_ID {
      NoTokens(abbreviated);
    } else {
      ValueText(f, b, d, abbreviated);
    }
  }

  lemma {:induction false} FieldText(f: Formats, b: Body, d: Def, indents: nat)
    requires ValidFormats(f) && FieldConforms(b, d) && CsvDef(d)
    ensures Tokens(FieldScript(f, b, d, false, indents), FieldTokens(f, b, d), false)
    decreases d, 0
  {
    hide ValidFormats, ValueScript, RowsScript, RowsTokens, ArrayTokens, Conforms, CsvDefs, Tokens, Converted;
    if d.fieldType != FIELD_ARRAY {
      PlainFieldText(f, b, d, false, indents);
    } else {
      if d.info.Some? && d.index < |b.vars| {
        var v, defs := b.vars[d.index], d.info.value.fields;
        var head, rows := Texts([f.decimal(RowCount(v)), [COMMA]]), RowsScript(f, v, defs, false, indents + 1, RowCount(v));
        TokenTexts(f.decimal(RowCount(v)), false);
        RowsText(f, v, defs, indents + 1, RowCount(v));
        TokensThen(head, [f.decimal(RowCount(v))], rows, RowsTokens(f, v, defs, RowCount(v)), false);
        assert FieldScript(f, b, d, false, indents) == head + [] + rows;
        assert head + [] == head;
      } else {
        NoTokens(false);
      }
    }
  }

  lemma ValueText(f: Formats, b: Body, d: Def, abbreviated: bool)
    requires ValidFormats(f) && FieldConforms(b, d) && (d.isCsv ==> !d.isString)
    requires IsArray(d) || d.fieldType == SIMPLE || d.fieldType == ENUM
    ensures Tokens(ValueScript(f, b, d, abbreviated), FieldTokens(f, b, d), abbreviated)
  {
    hide ArrayTokens, Tokens, ElementsScript, Shown, Converted;
    if d.fieldType == ENUM {
      TokenTexts(f.enumerator(d, Scalar(b, d)), abbreviated);
    } else if d.fieldType == SIMPLE {
      OneToken(f.ascii(d, Scalar(b, d)), abbreviated);
    } else {
      ArrayText(f, b, d, abbreviated);
    }
  }

  lemma {:induction false} RowsText(f: Formats, v: Var, defs: seq<Def>, indents: nat, n: nat)
    requires ValidFormats(f) && RowsConform(v, defs) && CsvDefs(defs) && n <= RowCount(v)
    ensures Tokens(RowsScript(f, v, defs, false, indents, n), RowsTokens(f, v, defs, n), false)
    decreases defs, 2, n
  {
    hide ValidFormats, Conforms, CsvDefs, BodyScript, BodyTokens, Tokens;
    if n == 0 {
      NoTokens(false);
    } else {
      RowsText(f, v, defs, indents, n - 1);
      BodyText(f, RowBody(v, n - 1), defs, indents);
      var before := RowsScript(f, v, defs, false, indents, n - 1);
      TokensThen(before, RowsTokens(f, v, defs, n - 1), BodyScript(f, RowBody(v, n - 1), defs, false, indents),
                 BodyTokens(f, RowBody(v, n - 1), defs), false);
      assert before + [] == before;
    }
  }

  lemma {:induction false} FieldsText(f: Formats, b: Body, defs: seq<Def>, indents: nat)
    requires ValidFormats(f) && Conforms(b, defs) && CsvDefs(defs)
    ensures Tokens(FieldsScript(f, b, defs, false, indents), BodyTokens(f, b, defs), false)
    decreases defs, 0, 0
  {
    hide ValidFormats, FieldConforms, CsvDef, FieldScript, FieldTokens, Tokens;
    if defs == [] {
      NoTokens(false);
    } else {
      var n := |defs| - 1;
      var before := FieldsScript(f, b, defs[..n], false, indents);
      FieldsText(f, b, defs[..n], indents);
      FieldText(f, b, defs[n], indents);
      TokensThen(before, BodyTokens(f, b, defs[..n]), FieldScript(f, b, defs[n], false, indents), FieldTokens(f, b, defs[n]), false);
      assert before + [] == before;
    }
  }

  /** The plain ASCII body is its tokens, a comma behind each. */
  lemma {:induction false} BodyText(f: Formats, b: Body, defs: seq<Def>, indents: nat)
    requires ValidFormats(f) && Conforms(b, defs) && CsvDefs(defs)
    ensures Tokens(BodyScript(f, b, defs, false, indents), BodyTokens(f, b, defs), false)
    decreases defs, 1, 0
  {
    hide ValidFormats, FieldsScript, Tokens, Conforms, CsvDefs, BodyTokens;
    FieldsText(f, b, defs, indents);
    assert [] + FieldsScript(f, b, defs, false, indents) == FieldsScript(f, b, defs, false, indents);
  }

  /** A header and a body less its last byte: the tokens joined by commas behind the header, or, of a
      body with no token, the header without its own last byte. */
  lemma MessageText(f: Formats, b: Body, defs: seq<Def>, header: seq<byte>)
    requires ValidFormats(f) && Conforms(b, defs) && CsvDefs(defs) && header != []
    ensures OnlyPuts(BodyScript(f, b, defs, false, 1))
    ensures var all, tokens := header + TextOf(BodyScript(f, b, defs, false, 1)), BodyTokens(f, b, defs);
            all[..|all| - 1] == if tokens == [] then header[..|header| - 1] else header + Join(tokens)
  {
    hide ValidFormats, BodyScript, Conforms, CsvDefs, BodyTokens, TextOf, OnlyPuts, Join;
    BodyText(f, b, defs, 1);
    var tokens := BodyTokens(f, b, defs);
    FollowedByCommas(tokens);
    if tokens != [] {
      TrailingIsJoin(tokens);
      assert header + (Join(tokens) + [COMMA]) == (header + Join(tokens)) + [COMMA];
    } else {
      EmptyText(COMMA);
      assert header + [] == header;
    }
  }
}
