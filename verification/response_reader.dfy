/** A client-side reading of the text sendResponse produces: the status line,
    the header lines up to the blank line, and everything after it as the
    body. It is defined without reference to the serialiser, so that reading
    a serialised response back is a statement about what the server sends. */
module ResponseReader {
  import opened Results
  import opened CppString
  import opened Decimal
  import opened HttpResponse

  /** One `Name: value` header line as read. */
  datatype HeaderField = HeaderField(name: string, value: string)

  /** A response as a client sees it. */
  datatype Message = Message(
    version: string,
    statusCode: int,
    reason: string,
    fields: seq<HeaderField>,
    body: string)

  /** The CRLF-terminated lines at the start of `s` up to the first empty
      one, and the offset just after that empty line, where the body starts.
      None when the text ends first or a CR is not followed by LF. */
  function ReadHead(s: string): (r: Option<(seq<string>, nat)>)
    ensures r.Some? ==> 0 < r.value.1 <= |s|
    decreases |s|
  {
    match Find(s, '\r', 0)
    case None => None
    case Some(e) =>
      if e + 1 < |s| && s[e + 1] == '\n' then
        if e == 0 then Some(([], 2))
        else
          match ReadHead(s[e + 2..])
          case None => None
          case Some(rest) => Some(([s[..e]] + rest.0, e + 2 + rest.1))
      else None
  }

  /** `VERSION SP CODE SP REASON`: the code is the decimal between the first
      two spaces; the reason is everything after the second. */
  function ReadStatusLine(line: string): Option<(string, int, string)> {
    match Find(line, ' ', 0)
    case None => None
    case Some(a) =>
      match Find(line, ' ', a + 1)
      case None => None
      case Some(b) =>
        match ParseDecimal(line[a + 1..b])
        case None => None
        case Some(code) => Some((line[..a], code, line[b + 1..]))
  }

  /** `Name: value`: the name runs to the first ':', which must be followed by
      one space. */
  function ReadField(line: string): Option<HeaderField> {
    match Find(line, ':', 0)
    case None => None
    case Some(k) =>
      if k + 1 < |line| && line[k + 1] == ' ' then Some(HeaderField(line[..k], line[k + 2..]))
      else None
  }

  function ReadFields(lines: seq<string>): (r: Option<seq<HeaderField>>)
    ensures r.Some? ==> |r.value| == |lines|
  {
    if |lines| == 0 then Some([])
    else
      match ReadField(lines[0])
      case None => None
      case Some(f) =>
        match ReadFields(lines[1..])
        case None => None
        case Some(rest) => Some([f] + rest)
  }

  /** A whole response: status line, header lines, blank line, body. */
  function Read(s: string): Option<Message> {
    match ReadHead(s)
    case None => None
    case Some(head) =>
      if |head.0| == 0 then None
      else
        match ReadStatusLine(head.0[0])
        case None => None
        case Some(status) =>
          match ReadFields(head.0[1..])
          case None => None
          case Some(fields) => Some(Message(status.0, status.1, status.2, fields, s[head.1..]))
  }

  /** The value of the first field with the given name. */
  function FieldValue(fields: seq<HeaderField>, name: string): Option<string> {
    if |fields| == 0 then None
    else if fields[0].name == name then Some(fields[0].value)
    else FieldValue(fields[1..], name)
  }

  /** The Content-Length a client would frame the body with. */
  function DeclaredLength(m: Message): Option<int> {
    match FieldValue(m.fields, CONTENT_LENGTH)
    case None => None
    case Some(v) => ParseDecimal(v)
  }

  /* ---------------------------------------------------------------------
     What the server's output reads back as.
     --------------------------------------------------------------------- */

  /** The header fields a response carries, in the order they are written. */
  function ResponseFields(r: Response): seq<HeaderField> {
    FieldsWith(SupportedEncoding(r.headers), r.contentType, NatToDecimal(r.contentLength))
  }

  /** The optional Content-Encoding field, then Content-Type and Content-Length. */
  function FieldsWith(encoding: string, contentType: string, length: string): seq<HeaderField> {
    (if encoding == "" then [] else [HeaderField(CONTENT_ENCODING, encoding)])
      + [HeaderField(CONTENT_TYPE, contentType), HeaderField(CONTENT_LENGTH, length)]
  }

  /** Every line joined with CRLF after it. */
  function Lines(ls: seq<string>): string {
    if |ls| == 0 then "" else ls[0] + CARRIAGE_DELIMITER + Lines(ls[1..])
  }

  function FieldText(f: HeaderField): string {
    f.name + COLON_DELIMITER + WHITESPACE_DELIMITER + f.value
  }

  function FieldTexts(fields: seq<HeaderField>): (r: seq<string>)
    ensures |r| == |fields|
  {
    if |fields| == 0 then [] else [FieldText(fields[0])] + FieldTexts(fields[1..])
  }

  /** The status line without its CRLF. */
  function StatusText(statusCode: int, message: string): string {
    HTTP_VERSION + WHITESPACE_DELIMITER + IntToDecimal(statusCode) + WHITESPACE_DELIMITER + message
  }

  /** The status line, every header line and the body can be told apart
      when the reason phrase and the content type are single lines. */
  predicate Readable(r: Response) {
    OneLine(r.message) && OneLine(r.contentType)
  }

  /** A client reading the serialised response finds the status code, the
      reason phrase, the header fields in order and the body, exactly as the
      response holds them. */
  lemma ReadSerialize(r: Response)
    requires Readable(r)
    ensures Read(Serialize(r)) == Some(Message(HTTP_VERSION, r.statusCode, r.message, ResponseFields(r), r.body))
  {
    SerializeAsLines(r);
    StatusTextRead(r.statusCode, r.message);
    StatusTextOneLine(r.statusCode, r.message);
    NatToDecimalOneLine(r.contentLength);
    FieldsOneLine(SupportedEncoding(r.headers), r.contentType, NatToDecimal(r.contentLength));
    ReadComposed(StatusText(r.statusCode, r.message), ResponseFields(r), r.body);
  }

  /** Reading a status line, proper header lines, a blank line and a body
      gives back each part. */
  lemma ReadComposed(status: string, fields: seq<HeaderField>, body: string)
    requires ReadStatusLine(status).Some? && |status| > 0 && OneLine(status)
    requires forall i | 0 <= i < |fields| :: FieldOneLine(fields[i])
    ensures Read(Lines([status] + FieldTexts(fields)) + CARRIAGE_DELIMITER + body)
         == Some(Message(ReadStatusLine(status).value.0, ReadStatusLine(status).value.1,
                         ReadStatusLine(status).value.2, fields, body))
  {
    ComposedHead(status, fields, body);
    ComposedFields(status, fields);
  }

  /** The lines after the status line read back as the fields. */
  lemma ComposedFields(status: string, fields: seq<HeaderField>)
    requires forall i | 0 <= i < |fields| :: FieldOneLine(fields[i])
    ensures var lines := [status] + FieldTexts(fields);
      lines[0] == status && ReadFields(lines[1..]) == Some(fields)
  {
    var lines := [status] + FieldTexts(fields);
    assert lines[1..] == FieldTexts(fields);
    FieldTextsRead(fields);
  }

  /** The head of a composed response is its status line and field lines. */
  lemma ComposedHead(status: string, fields: seq<HeaderField>, body: string)
    requires |status| > 0 && OneLine(status)
    requires forall i | 0 <= i < |fields| :: FieldOneLine(fields[i])
    ensures var lines := [status] + FieldTexts(fields);
      ReadHead(Lines(lines) + CARRIAGE_DELIMITER + body) == Some((lines, |Lines(lines)| + 2))
  {
    ComposedProper(status, fields);
    ReadHeadLines([status] + FieldTexts(fields), body);
  }

  /** The Content-Length a client reads is the stored length; when that is
      the body's length, the client frames exactly the body. */
  lemma DeclaredLengthSerialize(r: Response)
    requires Readable(r)
    ensures Read(Serialize(r)).Some?
    ensures DeclaredLength(Read(Serialize(r)).value) == Some(r.contentLength as int)
    ensures r.contentLength == |r.body| ==>
      DeclaredLength(Read(Serialize(r)).value) == Some(|Read(Serialize(r)).value.body|)
  {
    ReadSerialize(r);
    ContentLengthField(SupportedEncoding(r.headers), r.contentType, NatToDecimal(r.contentLength));
    IntToDecimalRoundTrip(r.contentLength);
  }

  /** A Content-Encoding field is read back exactly when the request's
      Accept-Encoding list names gzip, and it then says gzip. */
  lemma EncodingSerialize(r: Response)
    requires Readable(r)
    ensures Read(Serialize(r)).Some?
    ensures FieldValue(Read(Serialize(r)).value.fields, CONTENT_ENCODING).Some?
        <==> ACCEPT_ENCODING in r.headers && "gzip" in Split(r.headers[ACCEPT_ENCODING], ',')
    ensures FieldValue(Read(Serialize(r)).value.fields, CONTENT_ENCODING).Some? ==>
      FieldValue(Read(Serialize(r)).value.fields, CONTENT_ENCODING) == Some("gzip")
  {
    ReadSerialize(r);
    EncodingField(SupportedEncoding(r.headers), r.contentType, NatToDecimal(r.contentLength));
  }

  /** The Content-Length field carries the length it was given. */
  lemma ContentLengthField(encoding: string, contentType: string, length: string)
    ensures FieldValue(FieldsWith(encoding, contentType, length), CONTENT_LENGTH) == Some(length)
  {
    var fields := FieldsWith(encoding, contentType, length);
    var tail := [HeaderField(CONTENT_TYPE, contentType), HeaderField(CONTENT_LENGTH, length)];
    assert FieldValue(tail, CONTENT_LENGTH) == Some(length) by {
      assert CONTENT_TYPE != CONTENT_LENGTH by {
        assert CONTENT_TYPE[8] != CONTENT_LENGTH[8];
      }
      assert tail[1..] == [HeaderField(CONTENT_LENGTH, length)];
    }
    if encoding != "" {
      assert fields[1..] == tail;
      assert CONTENT_ENCODING != CONTENT_LENGTH by {
        assert CONTENT_ENCODING[8] != CONTENT_LENGTH[8];
      }
    } else {
      assert fields == tail;
    }
  }

  /** The Content-Encoding field is present exactly when an encoding is
      given, and then carries it. */
  lemma EncodingField(encoding: string, contentType: string, length: string)
    ensures FieldValue(FieldsWith(encoding, contentType, length), CONTENT_ENCODING).Some? <==> encoding != ""
    ensures FieldValue(FieldsWith(encoding, contentType, length), CONTENT_ENCODING).Some? ==>
      FieldValue(FieldsWith(encoding, contentType, length), CONTENT_ENCODING) == Some(encoding)
  {
    var fields := FieldsWith(encoding, contentType, length);
    var tail := [HeaderField(CONTENT_TYPE, contentType), HeaderField(CONTENT_LENGTH, length)];
    assert FieldValue(tail, CONTENT_ENCODING) == None by {
      assert CONTENT_TYPE != CONTENT_ENCODING by {
        assert CONTENT_TYPE[8] != CONTENT_ENCODING[8];
      }
      assert CONTENT_LENGTH != CONTENT_ENCODING by {
        assert CONTENT_LENGTH[8] != CONTENT_ENCODING[8];
      }
      assert tail[1..][1..] == [];
      assert FieldValue(tail[1..][1..], CONTENT_ENCODING) == None;
      assert FieldValue(tail[1..], CONTENT_ENCODING) == None;
    }
    if encoding == "" {
      assert fields == tail;
    }
  }

  /* ------------------------------ proofs ------------------------------ */

  /** The serialised text is its lines, a blank line and the body. */
  lemma SerializeAsLines(r: Response)
    ensures Serialize(r)
         == Lines([StatusText(r.statusCode, r.message)] + FieldTexts(ResponseFields(r))) + CARRIAGE_DELIMITER + r.body
  {
    var status := StatusText(r.statusCode, r.message);
    var texts := FieldTexts(ResponseFields(r));
    FieldLines(r);
    LinesAppend([status], texts);
    LinesOne(status);
    assert Lines([status] + texts) == StatusLine(r.statusCode, r.message) + HeaderLines(r);
  }

  /** The header lines of a response are the lines of its fields. */
  lemma FieldLines(r: Response)
    ensures Lines(FieldTexts(ResponseFields(r))) == HeaderLines(r)
  {
    FieldsWithLines(SupportedEncoding(r.headers), r.contentType, NatToDecimal(r.contentLength));
  }

  lemma FieldsWithLines(encoding: string, contentType: string, length: string)
    ensures Lines(FieldTexts(FieldsWith(encoding, contentType, length)))
         == (if encoding == "" then "" else HeaderLine(CONTENT_ENCODING, encoding))
          + HeaderLine(CONTENT_TYPE, contentType) + HeaderLine(CONTENT_LENGTH, length)
  {
    var ct := HeaderField(CONTENT_TYPE, contentType);
    var cl := HeaderField(CONTENT_LENGTH, length);
    var tail := HeaderLine(CONTENT_TYPE, contentType) + HeaderLine(CONTENT_LENGTH, length);
    TwoFieldLines(ct, cl);
    if encoding == "" {
      assert FieldsWith(encoding, contentType, length) == [ct, cl];
    } else {
      var ce := HeaderField(CONTENT_ENCODING, encoding);
      assert FieldsWith(encoding, contentType, length) == [ce] + [ct, cl];
      assert FieldTexts([ce] + [ct, cl]) == [FieldText(ce)] + FieldTexts([ct, cl]) by {
        assert ([ce] + [ct, cl])[1..] == [ct, cl];
      }
      LinesAppend([FieldText(ce)], FieldTexts([ct, cl]));
      LinesOne(FieldText(ce));
    }
  }

  lemma TwoFieldLines(a: HeaderField, b: HeaderField)
    ensures Lines(FieldTexts([a, b])) == HeaderLine(a.name, a.value) + HeaderLine(b.name, b.value)
  {
    FieldTexts2(a, b);
    LinesAppend([FieldText(a)], [FieldText(b)]);
    LinesOne(FieldText(a));
    LinesOne(FieldText(b));
    assert [FieldText(a)] + [FieldText(b)] == [FieldText(a), FieldText(b)];
  }

  lemma FieldTexts2(a: HeaderField, b: HeaderField)
    ensures FieldTexts([a, b]) == [FieldText(a), FieldText(b)]
  {
    assert [a, b][1..] == [b];
    assert [b][1..] == [];
  }

  lemma LinesOne(x: string)
    ensures Lines([x]) == x + CARRIAGE_DELIMITER
  {
    assert [x][1..] == [];
  }

  lemma {:induction false} LinesAppend(xs: seq<string>, ys: seq<string>)
    ensures Lines(xs + ys) == Lines(xs) + Lines(ys)
    decreases |xs|
  {
    if |xs| > 0 {
      LinesAppend(xs[1..], ys);
      assert (xs + ys)[1..] == xs[1..] + ys;
    } else {
      assert xs + ys == ys;
    }
  }

  /** Lines that are non-empty and contain no line end. */
  predicate ProperLines(ls: seq<string>) {
    forall i | 0 <= i < |ls| :: |ls[i]| > 0 && OneLine(ls[i])
  }

  lemma ComposedProper(status: string, fields: seq<HeaderField>)
    requires |status| > 0 && OneLine(status)
    requires forall i | 0 <= i < |fields| :: FieldOneLine(fields[i])
    ensures ProperLines([status] + FieldTexts(fields))
  {
    var lines := [status] + FieldTexts(fields);
    FieldTextsOneLine(fields);
    forall i | 0 <= i < |lines|
      ensures |lines[i]| > 0 && OneLine(lines[i])
    {
      if i > 0 {
        assert lines[i] == FieldTexts(fields)[i - 1];
      }
    }
  }

  predicate FieldOneLine(f: HeaderField) {
    |f.name| > 0 && OneLine(f.name) && OneLine(f.value) && ':' !in f.name
  }

  /** Every field of a response is a proper header line when the content
      type and the length are single lines. */
  lemma FieldsOneLine(encoding: string, contentType: string, length: string)
    requires encoding == "" || encoding == "gzip"
    requires OneLine(contentType) && OneLine(length)
    ensures forall i | 0 <= i < |FieldsWith(encoding, contentType, length)| ::
      FieldOneLine(FieldsWith(encoding, contentType, length)[i])
  {
    assert FieldOneLine(HeaderField(CONTENT_TYPE, contentType)) by {
      ConstantOneLine(CONTENT_TYPE);
    }
    assert FieldOneLine(HeaderField(CONTENT_LENGTH, length)) by {
      ConstantOneLine(CONTENT_LENGTH);
    }
    if encoding != "" {
      assert FieldOneLine(HeaderField(CONTENT_ENCODING, encoding)) by {
        ConstantOneLine(CONTENT_ENCODING);
        assert forall j | 0 <= j < |encoding| :: encoding[j] in {'g', 'z', 'i', 'p'};
      }
    }
  }

  /** The header names are letters and hyphens. */
  lemma ConstantOneLine(name: string)
    requires name == CONTENT_TYPE || name == CONTENT_LENGTH || name == CONTENT_ENCODING
    ensures |name| > 0 && OneLine(name) && ':' !in name
  {
    assert forall j | 0 <= j < |name| :: 'A' <= name[j] <= 'z' || name[j] == '-';
  }

  lemma NatToDecimalOneLine(n: nat)
    ensures OneLine(NatToDecimal(n)) && ' ' !in NatToDecimal(n)
  {
    var d := NatToDecimal(n);
    assert forall j | 0 <= j < |d| :: IsDigit(d[j]);
  }

  lemma FieldTextsOneLine(fields: seq<HeaderField>)
    requires forall i | 0 <= i < |fields| :: FieldOneLine(fields[i])
    ensures forall i | 0 <= i < |fields| :: |FieldTexts(fields)[i]| > 0 && OneLine(FieldTexts(fields)[i])
  {
    forall i | 0 <= i < |fields|
      ensures |FieldTexts(fields)[i]| > 0 && OneLine(FieldTexts(fields)[i])
    {
      FieldTextAt(fields, i);
      FieldTextOneLine(fields[i]);
    }
  }

  lemma {:induction false} FieldTextAt(fields: seq<HeaderField>, i: nat)
    requires i < |fields|
    ensures FieldTexts(fields)[i] == FieldText(fields[i])
    decreases i
  {
    if i > 0 {
      FieldTextAt(fields[1..], i - 1);
    }
  }

  lemma FieldTextOneLine(f: HeaderField)
    requires FieldOneLine(f)
    ensures |FieldText(f)| > 0 && OneLine(FieldText(f))
  {
    var t := FieldText(f);
    forall j | 0 <= j < |t|
      ensures t[j] !in LINE_ENDS
    {
      if j < |f.name| {
        assert t[j] == f.name[j];
      } else if j >= |f.name| + 2 {
        assert t[j] == f.value[j - |f.name| - 2];
      }
    }
  }

  lemma StatusTextOneLine(statusCode: int, message: string)
    requires OneLine(message)
    ensures |StatusText(statusCode, message)| > 0 && OneLine(StatusText(statusCode, message))
  {
    var t := StatusText(statusCode, message);
    var code := IntToDecimal(statusCode);
    var v := |HTTP_VERSION|;
    forall j | 0 <= j < |t|
      ensures t[j] !in LINE_ENDS
    {
      if j < v {
        assert t[j] == HTTP_VERSION[j];
        assert forall k | 0 <= k < v :: HTTP_VERSION[k] in {'H', 'T', 'P', '/', '1', '.'};
      } else if v < j < v + 1 + |code| {
        assert t[j] == code[j - v - 1];
        CodeChars(statusCode);
      } else if j > v + 1 + |code| {
        assert t[j] == message[j - v - 2 - |code|];
      }
    }
  }

  /** A printed integer is a minus sign and digits: no space, no line end. */
  lemma CodeChars(n: int)
    ensures forall j | 0 <= j < |IntToDecimal(n)| :: IntToDecimal(n)[j] == '-' || IsDigit(IntToDecimal(n)[j])
  {
    var d := IntToDecimal(n);
    if n < 0 {
      forall j | 0 <= j < |d|
        ensures d[j] == '-' || IsDigit(d[j])
      {
        if j > 0 {
          assert d[j] == d[1..][j - 1];
        }
      }
    }
  }

  /** Reading the head of a text made of proper lines, a blank line and a
      body gives back those lines and the offset of the body. */
  lemma {:induction false} ReadHeadLines(ls: seq<string>, body: string)
    requires ProperLines(ls)
    ensures ReadHead(Lines(ls) + CARRIAGE_DELIMITER + body) == Some((ls, |Lines(ls)| + 2))
    decreases |ls|
  {
    var s := Lines(ls) + CARRIAGE_DELIMITER + body;
    if |ls| == 0 {
      assert s[0] == '\r' && s[1] == '\n';
      FindFirstAt(s, {'\r'}, 0, true, 0);
    } else {
      var rest := Lines(ls[1..]) + CARRIAGE_DELIMITER + body;
      ProperTail(ls);
      LinesCons(ls, body);
      ReadHeadLines(ls[1..], body);
      ReadHeadCons(s, ls, rest, |Lines(ls[1..])| + 2);
    }
  }

  /** The lines after a proper first line are proper. */
  lemma ProperTail(ls: seq<string>)
    requires ProperLines(ls) && |ls| > 0
    ensures ProperLines(ls[1..]) && |ls[0]| > 0 && OneLine(ls[0])
  {
    var tail := ls[1..];
    assert forall i | 0 <= i < |tail| :: tail[i] == ls[i + 1];
  }

  /** Text made of lines is its first line, a line end, and the rest. */
  lemma LinesCons(ls: seq<string>, body: string)
    requires |ls| > 0
    ensures Lines(ls) + CARRIAGE_DELIMITER + body
         == ls[0] + CARRIAGE_DELIMITER + (Lines(ls[1..]) + CARRIAGE_DELIMITER + body)
    ensures |Lines(ls)| == |ls[0]| + 2 + |Lines(ls[1..])|
  {
    var head := ls[0] + CARRIAGE_DELIMITER;
    var tail := Lines(ls[1..]);
    assert Lines(ls) == head + tail;
    assert head + tail + CARRIAGE_DELIMITER + body == head + (tail + CARRIAGE_DELIMITER + body);
  }

  /** A proper line in front of a readable head adds that line. */
  lemma ReadHeadCons(s: string, ls: seq<string>, rest: string, bodyStart: nat)
    requires |ls| > 0 && |ls[0]| > 0 && OneLine(ls[0])
    requires s == ls[0] + CARRIAGE_DELIMITER + rest
    requires ReadHead(rest) == Some((ls[1..], bodyStart))
    ensures ReadHead(s) == Some((ls, |ls[0]| + 2 + bodyStart))
  {
    var e := LineEndAt(s, ls[0], rest);
    ReadHeadStep(s, e, (ls[1..], bodyStart));
    assert [ls[0]] + ls[1..] == ls;
  }

  /** A non-empty first line followed by the rest of the head. */
  lemma ReadHeadStep(s: string, e: nat, rest: (seq<string>, nat))
    requires 0 < e && e + 1 < |s| && s[e + 1] == '\n'
    requires Find(s, '\r', 0) == Some(e)
    requires ReadHead(s[e + 2..]) == Some(rest)
    ensures ReadHead(s) == Some(([s[..e]] + rest.0, e + 2 + rest.1))
  {
  }

  /** A proper line at the start of `s` ends at the CR just after it. */
  lemma LineEndAt(s: string, line: string, rest: string) returns (e: nat)
    requires |line| > 0 && OneLine(line)
    requires s == line + CARRIAGE_DELIMITER + rest
    ensures e == |line| && e + 1 < |s|
    ensures Find(s, '\r', 0) == Some(e) && s[e + 1] == '\n'
    ensures s[..e] == line && s[e + 2..] == rest
  {
    e := |line|;
    forall j | 0 <= j < e
      ensures s[j] !in {'\r'}
    {
      assert s[j] == line[j];
    }
    assert s[e] == '\r' && s[e + 1] == '\n';
    FindFirstAt(s, {'\r'}, 0, true, e);
    assert s[..e] == line;
    assert s[e + 2..] == rest;
  }

  /** The status line gives back the version, the code and the reason. */
  lemma StatusTextRead(statusCode: int, message: string)
    ensures ReadStatusLine(StatusText(statusCode, message)) == Some((HTTP_VERSION, statusCode, message))
  {
    var t := StatusText(statusCode, message);
    var code := IntToDecimal(statusCode);
    var v := |HTTP_VERSION|;
    assert t == HTTP_VERSION + (" " + code + " " + message);
    forall j | 0 <= j < v
      ensures t[j] !in {' '}
    {
      assert t[j] == HTTP_VERSION[j];
      assert forall k | 0 <= k < v :: HTTP_VERSION[k] in {'H', 'T', 'P', '/', '1', '.'};
    }
    FindFirstAt(t, {' '}, 0, true, v);
    CodeChars(statusCode);
    forall j | v + 1 <= j < v + 1 + |code|
      ensures t[j] !in {' '}
    {
      assert t[j] == code[j - v - 1];
    }
    FindFirstAt(t, {' '}, v + 1, true, v + 1 + |code|);
    assert t[v + 1..v + 1 + |code|] == code;
    IntToDecimalRoundTrip(statusCode);
    assert t[..v] == HTTP_VERSION;
    assert t[v + 1 + |code| + 1..] == message;
  }

  /** Each field line gives back its name and value. */
  lemma FieldTextRead(f: HeaderField)
    requires ':' !in f.name
    ensures ReadField(FieldText(f)) == Some(f)
  {
    var t := FieldText(f);
    forall j | 0 <= j < |f.name|
      ensures t[j] !in {':'}
    {
      assert t[j] == f.name[j];
    }
    FindFirstAt(t, {':'}, 0, true, |f.name|);
    assert t[..|f.name|] == f.name;
    assert t[|f.name| + 2..] == f.value;
  }

  lemma {:induction false} FieldTextsRead(fields: seq<HeaderField>)
    requires forall i | 0 <= i < |fields| :: ':' !in fields[i].name
    ensures ReadFields(FieldTexts(fields)) == Some(fields)
    decreases |fields|
  {
    if |fields| > 0 {
      var texts := FieldTexts(fields);
      FieldTextRead(fields[0]);
      assert texts[1..] == FieldTexts(fields[1..]);
      FieldTextsRead(fields[1..]);
      assert [fields[0]] + fields[1..] == fields;
    }
  }
}
