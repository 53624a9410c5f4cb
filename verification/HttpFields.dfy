// What single header fields say about the body, in every spelling of their values.
module HttpFields {
  import opened Numbers
  import opened Spelling
  import opened Text
  import opened Wrappers
  import opened HttpMessage

  lemma ValueRead(name: string, ws1: string, value: string, ws2: string)
    requires ':' !in name && Blanks(ws1) && Blanks(ws2)
    requires value != "" && !Blanks(value[..1]) && !Blanks(value[|value| - 1..])
    ensures FieldValue(name + ":" + (ws1 + (value + ws2)), name) == Some(value)
  {
    var rest := ws1 + (value + ws2);
    var line := name + ":" + rest;
    assert line[..|name|] == name && line[|name| + 1..] == rest;
    assert (value + ws2)[..1] == value[..1];
    LeftBlanks(ws1, value + ws2);
    RightBlanks(value, ws2);
    hide LTrim, RTrim, Blanks;
  }

  // Fields with different names are told apart.
  lemma OtherName(name: string, rest: string, other: string)
    requires ':' !in name && ':' !in other && name != other
    ensures FieldValue(name + ":" + rest, other) == None
  {
    var line := name + ":" + rest;
    assert line[..|name|] == name && line[|name|] == ':';
    hide LTrim, RTrim;
  }

  lemma OneField(fields: seq<string>, line: string)
    ensures (fields + [line])[..|fields + [line]| - 1] == fields && (fields + [line])[|fields|] == line
  {
  }

  // Content-Length: any spelling of a number that fits.
  lemma LengthRead(fields: seq<string>, ws1: string, s: string, digits: seq<nat>, ws2: string)
    requires FramingOf(fields).Some? && Blanks(ws1) && Blanks(ws2)
    requires s != "" && Spells(s, digits, 10) && Value(digits, 10) <= 0xFFFF_FFFF
    ensures FramingOf(fields + ["Content-Length:" + (ws1 + (s + ws2))]) ==
            Some(FramingOf(fields).value.(length := Some(Value(digits, 10))))
  {
    var name := "Content-Length";
    var line := name + ":" + (ws1 + (s + ws2));
    assert line == "Content-Length:" + (ws1 + (s + ws2));
    DigitsNotBlank(s, digits);
    ValueRead(name, ws1, s, ws2);
    NumberRead(s, digits);
    OneField(fields, line);
    hide Stoul, FieldValue, Spells, Value;
  }

  lemma DigitsNotBlank(s: string, digits: seq<nat>)
    requires s != "" && Spells(s, digits, 10)
    ensures !Blanks(s[..1]) && !Blanks(s[|s| - 1..])
  {
    var n := |s| - 1;
    DigitRead(s[0], digits[0]);
    DigitRead(s[n], digits[n]);
    assert s[..1][0] == s[0] && s[n..][0] == s[n];
    hide IsDigit, DigitValue;
  }

  lemma NumberRead(s: string, digits: seq<nat>)
    requires s != "" && Spells(s, digits, 10) && Value(digits, 10) <= 0xFFFF_FFFF
    ensures Stoul(s, 10) == Some(Value(digits, 10))
  {
    StoulReads("", "", "", s, digits, "", 10);
    assert "" + ("" + ("" + (s + ""))) == s;
    hide Stoul, Spells, Value;
  }

  // Transfer-Encoding: chunked, and nothing else.
  lemma CodingRead(fields: seq<string>, ws1: string, value: string, ws2: string)
    requires FramingOf(fields).Some? && Blanks(ws1) && Blanks(ws2)
    requires value != "" && !Blanks(value[..1]) && !Blanks(value[|value| - 1..])
    ensures FramingOf(fields + ["Transfer-Encoding:" + (ws1 + (value + ws2))]) ==
            if value == "chunked" then Some(FramingOf(fields).value.(chunked := true)) else None
  {
    var name, rest := "Transfer-Encoding", ws1 + (value + ws2);
    var line := name + ":" + rest;
    assert line == "Transfer-Encoding:" + rest;
    OtherName(name, rest, "Content-Length");
    ValueRead(name, ws1, value, ws2);
    OneField(fields, line);
    hide Stoul, FieldValue;
  }

  // A field of any other name changes nothing; case matters.
  lemma OtherFieldRead(fields: seq<string>, name: string, rest: string)
    requires ':' !in name && name != "Content-Length" && name != "Transfer-Encoding"
    ensures FramingOf(fields + [name + ":" + rest]) == FramingOf(fields)
  {
    OtherName(name, rest, "Content-Length");
    OtherName(name, rest, "Transfer-Encoding");
    OneField(fields, name + ":" + rest);
    hide Stoul, FieldValue;
  }
}
