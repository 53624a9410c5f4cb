// Header lines of a part, as any client may write them (section 4.2 of RFC 7578 and
// section 2 of RFC 2183), and that the parser reads from them what they say.
module MultipartHeaders {
  import opened Numbers
  import opened Text
  import opened Multipart
  import opened Wrappers

  // A value without quotation marks and line ends.
  predicate Plain(s: string) { '"' !in s && '\r' !in s && '\n' !in s }

  // The same letter, in either case.
  predicate SameLetter(c: char, d: char) {
    c == d || ('A' <= c <= 'Z' && d as int == c as int + 32) || ('a' <= c <= 'z' && d as int == c as int - 32)
  }

  predicate SameWord(s: string, word: string) {
    |s| == |word| && forall i | 0 <= i < |s| :: SameLetter(s[i], word[i])
  }

  // White space inside a line.
  predicate White(ws: string) { forall i | 0 <= i < |ws| :: IsSpace(ws[i]) && ws[i] != '\r' }

  // The parameter for the file name, if there is one.
  datatype FileName = NoFileName | FileName(ws: string, key: string, filename: string)

  // A header line: the disposition, the content type, or any other.
  datatype Field =
    | Names(keyword: string, ws1: string, kind: string, ws2: string, key: string, name: string,
            file: FileName, ws3: string)
    | Type(keyword: string, ws1: string, value: string, ws2: string)
    | Other(text: string)

  function FileText(f: FileName): string {
    match f
    case NoFileName => ""
    case FileName(ws, key, filename) => ";" + (ws + (key + (filename + ("\"" + ""))))
  }

  function Filename(f: FileName): string {
    match f
    case NoFileName => ""
    case FileName(_, _, filename) => filename
  }

  function LineText(f: Field): string {
    match f
    case Names(keyword, ws1, kind, ws2, key, name, file, ws3) =>
      keyword + (ws1 + (kind + (ws2 + (key + (name + ("\"" + (FileText(file) + ws3)))))))
    case Type(keyword, ws1, value, ws2) => keyword + (ws1 + (value + ws2))
    case Other(text) => text
  }

  predicate Begins(text: string, word: string) { |text| >= |word| && SameWord(text[..|word|], word) }

  predicate WellWritten(f: Field) {
    match f
    case Names(keyword, ws1, kind, ws2, key, name, file, ws3) =>
      && SameWord(keyword, "content-disposition:") && SameWord(kind, "form-data;") && SameWord(key, "name=\"")
      && White(ws1) && White(ws2) && White(ws3) && Plain(name)
      && (file.FileName? ==> White(file.ws) && SameWord(file.key, "filename=\"") && Plain(file.filename))
    case Type(keyword, ws1, value, ws2) =>
      && SameWord(keyword, "content-type:") && Blanks(ws1) && Blanks(ws2) && '\r' !in value
      && (value == "" || (!Blanks(value[..1]) && !Blanks(value[|value| - 1..])))
    case Other(text) =>
      text != "" && '\r' !in text && !Begins(text, "content-type:") && !Begins(text, "content-disposition:")
  }

  // What the line says about the file.
  function Saying(file: Item, f: Field): Item {
    match f
    case Names(_, _, _, _, _, name, fileName, _) => file.(name := name, filename := Filename(fileName))
    case Type(_, _, value, _) => file.(contentType := value)
    case Other(_) => file
  }

  // ---- words ----

  lemma SameLetterLower(c: char, d: char)
    ensures SameLetter(c, d) <==> Lower(c) == Lower(d)
  {
  }

  lemma BeginsIs(text: string, word: string)
    ensures StartsWithCaseIgnore(text, word) <==> Begins(text, word)
  {
    forall c, d
      ensures SameLetter(c, d) <==> Lower(c) == Lower(d)
    {
      SameLetterLower(c, d);
    }
    hide SameLetter, Lower;
    if Begins(text, word) {
      forall i | 0 <= i < |word|
        ensures Lower(text[i]) == Lower(word[i])
      {
        assert SameLetter(text[..|word|][i], word[i]);
      }
    }
  }

  lemma WordStripped(s: string, word: string, rest: string)
    requires SameWord(s, word)
    ensures Strip(s + rest, word) == Some(rest)
  {
    assert (s + rest)[..|word|] == s && (s + rest)[|word|..] == rest;
    BeginsIs(s + rest, word);
    hide StartsWithCaseIgnore;
  }

  lemma {:induction false} WhiteSkipped(ws: string, t: string)
    requires White(ws) && (t != "" ==> !IsSpace(t[0]))
    ensures SkipSpace(ws + t) == t
  {
    if ws == "" {
      assert ws + t == t;
    } else {
      assert (ws + t)[1..] == ws[1..] + t;
      WhiteSkipped(ws[1..], t);
    }
  }

  lemma ReadQuoted(v: string, tail: string)
    requires Plain(v)
    ensures Quoted(v + ("\"" + tail)) == Some((v, tail))
  {
    var s := v + ("\"" + tail);
    FindIn(v, '"', "\"" + tail);
    assert s[..|v|] == v && s[|v| + 1..] == tail;
  }

  // White space and a word, then a quoted value.
  lemma KeyRead(ws: string, key: string, word: string, v: string, tail: string)
    requires White(ws) && SameWord(key, word) && (word == "name=\"" || word == "filename=\"") && Plain(v)
    ensures var s := ws + (key + (v + ("\"" + tail)));
            Strip(SkipSpace(s), word) == Some(v + ("\"" + tail)) && Quoted(v + ("\"" + tail)) == Some((v, tail))
  {
    var rest := v + ("\"" + tail);
    assert SameLetter(key[0], word[0]) && !IsSpace(key[0]);
    WhiteSkipped(ws, key + rest);
    WordStripped(key, word, rest);
    ReadQuoted(v, tail);
    hide SkipSpace, Strip, SameWord, Quoted;
  }

  // ---- the disposition ----

  lemma FilenameRead(f: FileName, ws3: string)
    requires f.FileName? && White(f.ws) && SameWord(f.key, "filename=\"") && Plain(f.filename) && White(ws3)
    ensures MatchFilename(FileText(f) + ws3) == Some(f.filename)
    ensures FileText(f) + ws3 != "" && (FileText(f) + ws3)[0] == ';'
  {
    hide Strip, SkipSpace, Quoted, SameWord, White;
    var s := f.ws + (f.key + (f.filename + ("\"" + ws3)));
    assert FileText(f) + ws3 == ";" + s;
    SemicolonStripped(s);
    KeyRead(f.ws, f.key, "filename=\"", f.filename, ws3);
    OnlyWhite(ws3);
  }

  lemma SemicolonStripped(s: string)
    ensures Strip(";" + s, ";") == Some(s)
  {
    assert (";" + s)[1..] == s;
  }

  lemma OnlyWhite(ws: string)
    requires White(ws)
    ensures SkipSpace(ws) == ""
  {
    assert ws + "" == ws;
    WhiteSkipped(ws, "");
  }

  // What follows the name.
  lemma BehindName(file: FileName, ws3: string)
    requires White(ws3)
    requires file.FileName? ==> White(file.ws) && SameWord(file.key, "filename=\"") && Plain(file.filename)
    ensures var s4 := FileText(file) + ws3;
            if file.NoFileName? then SkipSpace(s4) == ""
            else SkipSpace(s4) != "" && MatchFilename(s4) == Some(file.filename)
  {
    hide SameWord, White, MatchFilename;
    match file
    case NoFileName =>
      assert "" + ws3 == ws3;
      OnlyWhite(ws3);
    case FileName(_, _, _) => FilenameRead(file, ws3);
  }

  lemma KindRead(ws1: string, kind: string, rest: string)
    requires White(ws1) && SameWord(kind, "form-data;")
    ensures Strip(SkipSpace(ws1 + (kind + rest)), "form-data;") == Some(rest)
  {
    assert SameLetter(kind[0], 'f') && !IsSpace(kind[0]);
    WhiteSkipped(ws1, kind + rest);
    WordStripped(kind, "form-data;", rest);
    hide SkipSpace, Strip, SameWord;
  }

  lemma KeywordRead(keyword: string, rest: string)
    requires SameWord(keyword, "content-disposition:")
    ensures Strip(keyword + rest, "Content-Disposition:") == Some(rest)
    ensures !StartsWithCaseIgnore(keyword + rest, HEADER_NAME)
  {
    WordStripped(keyword, "content-disposition:", rest);
    EitherKeyword(keyword + rest);
    assert SameLetter(keyword[8], 'd') && (keyword + rest)[8] == keyword[8];
    hide SameWord, SameLetter;
  }

  lemma EitherKeyword(s: string)
    ensures Strip(s, "Content-Disposition:") == Strip(s, "content-disposition:")
  {
    assert forall i | 0 <= i < 20 :: Lower("Content-Disposition:"[i]) == Lower("content-disposition:"[i]);
    hide Lower;
  }

  lemma NamesRead(f: Field)
    requires f.Names? && WellWritten(f)
    ensures MatchDisposition(LineText(f)) == Some((f.name, Filename(f.file)))
    ensures !StartsWithCaseIgnore(LineText(f), HEADER_NAME)
  {
    hide Strip, SkipSpace, Quoted, MatchFilename, SameWord, White, Plain, StartsWithCaseIgnore, FileText;
    var s4 := FileText(f.file) + f.ws3;
    var s3 := f.name + ("\"" + s4);
    var s2 := f.ws2 + (f.key + s3);
    KeywordRead(f.keyword, f.ws1 + (f.kind + s2));
    KindRead(f.ws1, f.kind, s2);
    KeyRead(f.ws2, f.key, "name=\"", f.name, s4);
    BehindName(f.file, f.ws3);
  }

  // A name with a line feed in it is not matched.
  lemma NameWithLineFeed(keyword: string, ws1: string, kind: string, ws2: string, key: string, v: string, rest: string)
    requires SameWord(keyword, "content-disposition:") && SameWord(kind, "form-data;") && SameWord(key, "name=\"")
    requires White(ws1) && White(ws2) && '"' !in v && '\n' in v
    ensures MatchDisposition(keyword + (ws1 + (kind + (ws2 + (key + (v + ("\"" + rest))))))) == None
  {
    hide Strip, SkipSpace, MatchFilename, SameWord, StartsWithCaseIgnore;
    var s3 := v + ("\"" + rest);
    KeywordRead(keyword, ws1 + (kind + (ws2 + (key + s3))));
    KindRead(ws1, kind, ws2 + (key + s3));
    FirstOfName(key);
    WhiteSkipped(ws2, key + s3);
    WordStripped(key, "name=\"", s3);
    FindIn(v, '"', "\"" + rest);
    assert s3[..|v|] == v;
  }

  lemma FirstOfName(key: string)
    requires SameWord(key, "name=\"")
    ensures key != "" && !IsSpace(key[0])
  {
    assert SameLetter(key[0], 'n');
  }

  // ---- the content type ----

  lemma TypeRead(file: Item, f: Field)
    requires f.Type? && WellWritten(f)
    ensures Header(file, LineText(f)) == file.(contentType := f.value)
  {
    var rest := f.ws1 + (f.value + f.ws2);
    WordStripped(f.keyword, "content-type:", rest);
    if f.value == "" {
      assert f.ws1 + (f.value + f.ws2) == (f.ws1 + f.ws2) + "";
      LeftBlanks(f.ws1 + f.ws2, "");
      RightBlanks("", "");
    } else {
      assert (f.value + f.ws2)[..1] == f.value[..1];
      LeftBlanks(f.ws1, f.value + f.ws2);
      RightBlanks(f.value, f.ws2);
    }
    hide MatchDisposition, LTrim, RTrim, StartsWithCaseIgnore, SameWord;
  }

  // ---- any line ----

  // A line does to the file information what it says, in every way of writing it.
  lemma HeaderRead(file: Item, f: Field)
    requires WellWritten(f)
    ensures Header(file, LineText(f)) == Saying(file, f)
  {
    hide MatchDisposition, StartsWithCaseIgnore;
    match f
    case Names(_, _, _, _, _, _, _, _) => NamesRead(f);
    case Type(_, _, _, _) => TypeRead(file, f);
    case Other(text) => OtherRead(file, text);
  }

  lemma OtherRead(file: Item, text: string)
    requires !Begins(text, "content-type:") && !Begins(text, "content-disposition:")
    ensures Header(file, text) == file
  {
    BeginsIs(text, "content-type:");
    BeginsIs(text, "content-disposition:");
    EitherKeyword(text);
    hide StartsWithCaseIgnore, Begins;
  }

  lemma Joined(a: string, b: string)
    requires '\r' !in a && '\r' !in b
    ensures '\r' !in a + b
  {
  }

  lemma WhiteJoined(ws: string, b: string)
    requires White(ws) && '\r' !in b
    ensures '\r' !in ws + b
  {
    forall i | 0 <= i < |ws|
      ensures ws[i] != '\r'
    {
    }
  }

  lemma WordJoined(s: string, word: string, b: string)
    requires SameWord(s, word) && '\r' !in word && '\r' !in b
    ensures '\r' !in s + b
  {
    forall i | 0 <= i < |s|
      ensures s[i] != '\r'
    {
      assert SameLetter(s[i], word[i]);
      assert word[i] in word;
    }
  }

  lemma FileIsGood(file: FileName, ws3: string)
    requires White(ws3)
    requires file.FileName? ==> White(file.ws) && SameWord(file.key, "filename=\"") && Plain(file.filename)
    ensures '\r' !in FileText(file) + ws3
  {
    assert ws3 + "" == ws3;
    WhiteJoined(ws3, "");
    hide SameWord, White;
    if file.FileName? {
      var t := file.filename + ("\"" + "");
      WordJoined(file.key, "filename=\"", t);
      WhiteJoined(file.ws, file.key + t);
      Joined(";", file.ws + (file.key + t));
      Joined(FileText(file), ws3);
    }
  }

  lemma LineIsGood(f: Field)
    requires WellWritten(f)
    ensures LineText(f) != "" && '\r' !in LineText(f)
  {
    match f
    case Names(keyword, ws1, kind, ws2, key, name, file, ws3) =>
      FileIsGood(file, ws3);
      assert |keyword| == 20;
      hide SameWord, White, FileText;
      var s4 := FileText(file) + ws3;
      Joined("\"", s4);
      Joined(name, "\"" + s4);
      var s3 := name + ("\"" + s4);
      WordJoined(key, "name=\"", s3);
      WhiteJoined(ws2, key + s3);
      WordJoined(kind, "form-data;", ws2 + (key + s3));
      WhiteJoined(ws1, kind + (ws2 + (key + s3)));
      WordJoined(keyword, "content-disposition:", ws1 + (kind + (ws2 + (key + s3))));
    case Type(keyword, ws1, value, ws2) =>
      assert |keyword| == 13 && '\r' !in ws1 && '\r' !in ws2;
      hide SameWord, Blanks;
      Joined(value, ws2);
      Joined(ws1, value + ws2);
      WordJoined(keyword, "content-type:", ws1 + (value + ws2));
    case Other(_) =>
  }

  // ---- all lines of a part ----

  // The file information after the given lines.
  function Fold(file: Item, lines: seq<string>): Item
    decreases |lines|
  {
    if lines == [] then file else Fold(Header(file, lines[0]), lines[1..])
  }

  function LineTexts(fields: seq<Field>): seq<string> {
    if fields == [] then [] else [LineText(fields[0])] + LineTexts(fields[1..])
  }

  predicate AllWellWritten(fields: seq<Field>) { forall i | 0 <= i < |fields| :: WellWritten(fields[i]) }

  // All dispositions among the fields say this, and there is one.
  predicate NamesAre(fields: seq<Field>, name: string, filename: string) {
    && (forall i | 0 <= i < |fields| ::
          fields[i].Names? ==> fields[i].name == name && Filename(fields[i].file) == filename)
    && (exists i :: 0 <= i < |fields| && fields[i].Names?)
  }

  // So do all content types, if there is one; otherwise it is empty.
  predicate TypeIs(fields: seq<Field>, value: string) {
    && (forall i | 0 <= i < |fields| :: fields[i].Type? ==> fields[i].value == value)
    && ((exists i :: 0 <= i < |fields| && fields[i].Type?) || value == "")
  }

  lemma {:induction false} FieldsFolded(file: Item, fields: seq<Field>, name: string, filename: string, value: string)
    requires AllWellWritten(fields)
    requires forall i | 0 <= i < |fields| ::
               fields[i].Names? ==> fields[i].name == name && Filename(fields[i].file) == filename
    requires forall i | 0 <= i < |fields| :: fields[i].Type? ==> fields[i].value == value
    ensures var names, types := exists i :: 0 <= i < |fields| && fields[i].Names?,
                                exists i :: 0 <= i < |fields| && fields[i].Type?;
            Fold(file, LineTexts(fields)) ==
            Item(if names then name else file.name, if names then filename else file.filename,
                 if types then value else file.contentType, file.content)
    decreases |fields|
  {
    hide Header, WellWritten, LineText, Filename;
    if fields != [] {
      var first, rest := fields[0], fields[1..];
      assert LineTexts(fields)[1..] == LineTexts(rest);
      HeaderRead(file, first);
      FieldsFolded(Header(file, LineText(first)), rest, name, filename, value);
      assert first.Names? || (exists i :: 0 <= i < |rest| && rest[i].Names?) <==>
             exists i :: 0 <= i < |fields| && fields[i].Names? by { SomeNames(fields); }
      assert first.Type? || (exists i :: 0 <= i < |rest| && rest[i].Type?) <==>
             exists i :: 0 <= i < |fields| && fields[i].Type? by { SomeType(fields); }
    }
  }

  lemma SomeNames(fields: seq<Field>)
    requires fields != []
    ensures fields[0].Names? || (exists i :: 0 <= i < |fields[1..]| && fields[1..][i].Names?) <==>
            exists i :: 0 <= i < |fields| && fields[i].Names?
  {
    if i :| 0 < i < |fields| && fields[i].Names? {
      assert fields[1..][i - 1].Names?;
    }
  }

  lemma SomeType(fields: seq<Field>)
    requires fields != []
    ensures fields[0].Type? || (exists i :: 0 <= i < |fields[1..]| && fields[1..][i].Type?) <==>
            exists i :: 0 <= i < |fields| && fields[i].Type?
  {
    if i :| 0 < i < |fields| && fields[i].Type? {
      assert fields[1..][i - 1].Type?;
    }
  }

  // Header lines in any order and any spelling, with any number of other lines among
  // them, give the name, the file name and the content type that they say.
  lemma FieldsRead(fields: seq<Field>, name: string, filename: string, value: string)
    requires AllWellWritten(fields) && NamesAre(fields, name, filename) && TypeIs(fields, value)
    ensures Fold(NO_FILE, LineTexts(fields)) == Item(name, filename, value, "")
    ensures forall line | line in LineTexts(fields) :: line != "" && '\r' !in line
  {
    FieldsFolded(NO_FILE, fields, name, filename, value);
    LinesAreGood(fields);
    hide WellWritten, Fold, LineTexts;
  }

  lemma {:induction false} LinesAreGood(fields: seq<Field>)
    requires AllWellWritten(fields)
    ensures forall line | line in LineTexts(fields) :: line != "" && '\r' !in line
  {
    hide WellWritten, LineText;
    if fields != [] {
      LineIsGood(fields[0]);
      LinesAreGood(fields[1..]);
    }
  }
}
