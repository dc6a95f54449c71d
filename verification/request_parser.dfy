/** The string logic of HttpRequestHandler::parseRequest and parseHeaders:
    from the received text to method, path, header map and body. The size_t
    arithmetic of the source is kept, wrap-around included, so malformed
    input is parsed exactly as the source parses it. */
module RequestParser {
  import opened Results
  import opened CppString
  import opened HttpRequest

  /** kCarriageDelimiter as written into a request, and its length, 2. */
  const CRLF: string := "\r\n"

  /** kKeyValueDelimiter as written into a request, and its length, 2. */
  const KEY_VALUE_DELIMITER: string := ": "

  /** kKeyValueDelimiter as find_first_of reads it: either character ends a key. */
  const KEY_ENDS: set<char> := {':', ' '}

  /** One header line as scanned, before it is stored in the map. */
  datatype Field = Field(key: string, value: string)

  /** A key is cut at the first ':' or ' ', so neither occurs in it. */
  predicate KeyIsCut(f: Field) {
    ':' !in f.key && ' ' !in f.key
  }

  /** parseRequest after the bytes have arrived. An empty reception yields the
      default request; the only exception is substr's out_of_range, raised
      while the headers are scanned. */
  function Parse(s: string): (r: Result<Request>)
    requires Fits(s)
    ensures |s| == 0 ==> r == Success(EMPTY_REQUEST)
    ensures r.Success? ==> r.value.requestParam == "" && r.value.directoryName == ""
    ensures r.Success? ==> forall k | k in r.value.headers :: ':' !in k && ' ' !in k
    ensures r.Failure? ==> |s| > 0 && r.error.SubstrOutOfRange?
  {
    if |s| == 0 then Success(EMPTY_REQUEST)
    else
      var headers :- ParseHeaders(s);
      Success(Request(MethodOf(s), PathOf(s), "", headers, "", BodyOf(s)))
  }

  /** `client_request.substr(0, path_start_pos - 1)`: the text before the first
      '/', less the one separator character in front of it. When there is no
      '/' at all, the length is npos - 1 and substr clamps it; when '/' is the
      first character, 0 - 1 wraps to npos. Either way the method is the
      whole text. */
  function MethodOf(s: string): (m: string)
    requires Fits(s)
    ensures '/' in s && s[0] != '/' ==>
      |m| + 1 < |s| && s[..|m|] == m && s[|m| + 1] == '/' && '/' !in s[..|m| + 1]
    ensures !('/' in s && s[0] != '/') ==> m == s
  {
    var pathStart := AsSize(FindFirstOf(s, {'/'}, 0));
    var m := SubstrInRange(s, 0, SizeSub(pathStart, 1));
    assert pathStart != NPOS && pathStart > 0 ==>
      m == s[..pathStart - 1] && forall j | 0 <= j < pathStart :: s[j] != '/';
    m
  }

  /** `client_request.substr(path_start_pos + 1, path_end_pos - path_start_pos - 1)`:
      the text strictly after the first '/' up to the next ' ' (or to the end
      when there is none), so it has no leading slash and no space. With no
      '/' at all the start wraps to 0 and the length to npos: the path is the
      whole text. */
  function PathOf(s: string): (path: string)
    requires Fits(s)
    ensures '/' in s ==>
      exists p | 0 <= p < |s| ::
        && s[p] == '/' && '/' !in s[..p]
        && p + 1 + |path| <= |s| && s[p + 1..p + 1 + |path|] == path
        && ' ' !in path
        && (p + 1 + |path| == |s| || s[p + 1 + |path|] == ' ')
    ensures '/' !in s ==> path == s
  {
    var pathStart := AsSize(FindFirstOf(s, {'/'}, 0));
    var pathEnd := AsSize(FindFirstOf(s, {' '}, pathStart));
    var path := SubstrInRange(s, SizeAdd(pathStart, 1), SizeSub(SizeSub(pathEnd, pathStart), 1));
    PathBetween(s, pathStart, pathEnd, path);
    path
  }

  /** The path cut out between the first '/' and the next ' ' lies strictly
      between them in the text. */
  lemma PathBetween(s: string, pathStart: Size, pathEnd: Size, path: string)
    requires Fits(s)
    requires pathStart == AsSize(FindFirstOf(s, {'/'}, 0))
    requires pathEnd == AsSize(FindFirstOf(s, {' '}, pathStart))
    requires path == SubstrInRange(s, SizeAdd(pathStart, 1), SizeSub(SizeSub(pathEnd, pathStart), 1))
    ensures '/' in s ==>
      exists p | 0 <= p < |s| ::
        && s[p] == '/' && '/' !in s[..p]
        && p + 1 + |path| <= |s| && s[p + 1..p + 1 + |path|] == path
        && ' ' !in path
        && (p + 1 + |path| == |s| || s[p + 1 + |path|] == ' ')
    ensures '/' !in s ==> path == s
  {
    if pathStart == NPOS {
      assert forall j | 0 <= j < |s| :: s[j] != '/';
      assert SizeAdd(pathStart, 1) == 0;
    } else {
      var p := pathStart;
      assert s[p] == '/';
      assert '/' !in s[..p] by {
        assert forall j | 0 <= j < p :: s[j] != '/';
      }
      var e := if pathEnd == NPOS then |s| else pathEnd;
      assert forall j | p + 1 <= j < e :: s[j] != ' ';
      assert path == s[p + 1..e];
      assert ' ' !in path by {
        assert forall j | 0 <= j < |path| :: path[j] == s[p + 1 + j];
      }
    }
  }

  /** `client_request.substr(client_request.find_last_of("\r\n") + 1)`: the
      longest suffix free of CR and LF (the whole text when there is neither). */
  function BodyOf(s: string): (b: string)
    requires Fits(s)
    ensures |b| <= |s| && s[|s| - |b|..] == b
    ensures OneLine(b)
    ensures |b| == |s| || s[|s| - |b| - 1] in LINE_ENDS
  {
    var lineEnd := AsSize(FindLastOf(s, LINE_ENDS));
    var b := SubstrInRange(s, SizeAdd(lineEnd, 1), NPOS);
    assert b == if lineEnd == NPOS then s else s[lineEnd + 1..];
    assert forall j | 0 <= j < |b| :: b[j] == s[|s| - |b| + j];
    b
  }

  /** parseHeaders: the header text runs from two characters after the first
      CR/LF to three characters before the last one (or to the end, when that
      length wraps), and is scanned line by line. */
  function ParseHeaders(s: string): (r: Result<map<string, string>>)
    requires Fits(s)
    ensures r.Success? ==> forall k | k in r.value :: ':' !in k && ' ' !in k
    ensures r.Failure? ==> r.error.SubstrOutOfRange?
    ensures (forall i | 0 <= i < |s| :: s[i] !in LINE_ENDS) ==> r == Success(map[])
  {
    var headerStart := FindFirstOf(s, LINE_ENDS, 0);
    var headerEnd := FindLastOf(s, LINE_ENDS);
    if headerStart.None? || headerEnd.None? then Success(map[])
    else
      var hs := AsSize(headerStart);
      var he := AsSize(headerEnd);
      var text :- Substr(s, SizeAdd(hs, 2), SizeSub(SizeSub(he, hs), 3));
      var fields :- ScanHeaders(text, 0, AsSize(FindLastOf(text, LINE_ENDS)));
      Success(Collect(fields))
  }

  /** What one turn of the header loop finds at `pos`: nothing more to scan,
      or a field and the position of the next line. */
  datatype Step = Stop | Line(field: Field, next: Size)

  /** The `while (pos < headers_end)` loop of parseHeaders. It stops, keeping
      what it has, once `pos` reaches `headersEnd` or at the first line that has
      no key delimiter or no line end at or after `pos`. */
  function ScanHeaders(text: string, pos: Size, headersEnd: Size): (r: Result<seq<Field>>)
    requires Fits(text)
    ensures r.Success? ==> forall i | 0 <= i < |r.value| :: KeyIsCut(r.value[i])
    ensures r.Failure? ==> r.error.SubstrOutOfRange?
    ensures (forall j | pos <= j < |text| :: text[j] !in KEY_ENDS) ==> r == Success([])
    ensures (forall j | pos <= j < |text| :: text[j] !in LINE_ENDS) ==> r == Success([])
    decreases SIZE_MODULUS - pos
  {
    if pos >= headersEnd then Success([])
    else
      var step :- ScanLine(text, pos);
      match step
      case Stop => Success([])
      case Line(field, next) =>
        var rest :- ScanHeaders(text, next, headersEnd);
        Success([field] + rest)
  }

  /** One turn of the loop body: the key runs from `pos` to the first ':' or
      ' ', the value from two characters after that to the first CR or LF
      (to the end of the text when that length wraps), and the next line
      starts two characters after the CR or LF. */
  function ScanLine(text: string, pos: Size): (r: Result<Step>)
    requires Fits(text)
    ensures r.Success? && r.value.Line? ==> KeyIsCut(r.value.field) && pos < r.value.next
    ensures r.Failure? ==> r.error.SubstrOutOfRange?
    ensures (forall j | pos <= j < |text| :: text[j] !in KEY_ENDS) ==> r == Success(Stop)
    ensures (forall j | pos <= j < |text| :: text[j] !in LINE_ENDS) ==> r == Success(Stop)
    ensures FindFirstOf(text, KEY_ENDS, pos).Some? && FindFirstOf(text, LINE_ENDS, pos).Some? ==>
      && (r.Success? <==> FindFirstOf(text, KEY_ENDS, pos).value + 2 <= |text|)
      && (r.Success? ==> r.value.Line?)
  {
    var keyEnd := FindFirstOf(text, KEY_ENDS, pos);
    var valueEnd := FindFirstOf(text, LINE_ENDS, pos);
    if keyEnd.None? || valueEnd.None? then Success(Stop)
    else LineAt(text, pos, AsSize(keyEnd), AsSize(valueEnd))
  }

  /** The field between `pos` and the key delimiter at `keyEnd`, with the
      value ending at `valueEnd`; the substr for the value throws when the
      delimiter is the last character of the text. */
  function LineAt(text: string, pos: Size, keyEnd: Size, valueEnd: Size): (r: Result<Step>)
    requires Fits(text)
    requires pos <= keyEnd < |text| && pos <= valueEnd < |text|
    requires forall j | pos <= j < keyEnd :: text[j] !in KEY_ENDS
    ensures r.Success? <==> keyEnd + 2 <= |text|
    ensures r.Success? ==> r.value.Line? && KeyIsCut(r.value.field) && pos < r.value.next
    ensures r.Success? ==>
      && r.value.field.key == text[pos..keyEnd]
      && r.value.field.value == text[keyEnd + 2..if keyEnd + 2 <= valueEnd then valueEnd else |text|]
      && r.value.next == valueEnd + 2
    ensures r.Failure? ==> r.error.SubstrOutOfRange?
  {
    var key := SubstrInRange(text, pos, SizeSub(keyEnd, pos));
    assert key == text[pos..keyEnd];
    assert forall j | 0 <= j < |key| :: key[j] == text[pos + j];
    var count := SizeSub(SizeSub(valueEnd, keyEnd), 2);
    ValueAt(text, keyEnd, valueEnd, count);
    var value :- Substr(text, SizeAdd(keyEnd, 2), count);
    Success(Line(Field(key, value), SizeAdd(valueEnd, 2)))
  }

  /** The value's substr: it starts two past the key delimiter and runs to
      the line end; when the line end comes first, the wrapped length is
      huge and the value runs to the end of the text. */
  lemma ValueAt(text: string, keyEnd: Size, valueEnd: Size, count: Size)
    requires Fits(text) && keyEnd < |text| && valueEnd < |text|
    requires count == SizeSub(SizeSub(valueEnd, keyEnd), 2)
    ensures var v := Substr(text, SizeAdd(keyEnd, 2), count);
      && (v.Success? <==> keyEnd + 2 <= |text|)
      && (v.Failure? ==> v.error.SubstrOutOfRange?)
      && (v.Success? ==> v.value == text[keyEnd + 2..if keyEnd + 2 <= valueEnd then valueEnd else |text|])
  {
    assert keyEnd + 2 <= valueEnd ==> count == valueEnd - keyEnd - 2;
    assert valueEnd < keyEnd + 2 ==> count >= |text| - keyEnd;
  }

  /** `headers[key] = value` applied line after line: a later line with the
      same key overwrites an earlier one, and keys are stored as written. */
  function Collect(fields: seq<Field>): (m: map<string, string>)
    ensures forall k :: k in m <==> exists i | 0 <= i < |fields| :: fields[i].key == k
    ensures forall i | 0 <= i < |fields| && LastWithKey(fields, i) :: m[fields[i].key] == fields[i].value
  {
    if |fields| == 0 then map[]
    else
      var last := fields[|fields| - 1];
      var m := Collect(fields[..|fields| - 1]);
      assert forall i | 0 <= i < |fields| - 1 :: fields[..|fields| - 1][i] == fields[i];
      m[last.key := last.value]
  }

  /** No later field has the same key as field `i`. */
  predicate LastWithKey(fields: seq<Field>, i: nat)
    requires i < |fields|
  {
    forall j | i < j < |fields| :: fields[j].key != fields[i].key
  }

  /* ---------------------------------------------------------------------
     The inverse direction: a request written in the wire format the server
     expects is parsed back into its parts.
     --------------------------------------------------------------------- */

  /** A header line the scanner reads back as it was written. */
  predicate WellFormedField(f: Field) {
    OneLine(f.key) && OneLine(f.value) && KeyIsCut(f)
  }

  predicate AllWellFormed(fields: seq<Field>) {
    forall i | 0 <= i < |fields| :: WellFormedField(fields[i])
  }

  function RenderField(f: Field): string {
    f.key + KEY_VALUE_DELIMITER + f.value + CRLF
  }

  function RenderFields(fields: seq<Field>): string {
    if |fields| == 0 then "" else RenderField(fields[0]) + RenderFields(fields[1..])
  }

  /** `METHOD SP "/" TARGET SP VERSION`; the target is the path without its
      leading slash. */
  function RequestLine(httpMethod: string, target: string, version: string): string {
    httpMethod + " /" + target + " " + version
  }

  /** A request line, one CRLF-terminated line per field, a blank line, a body. */
  function RenderRequest(httpMethod: string, target: string, version: string,
                         fields: seq<Field>, body: string): string
  {
    RequestLine(httpMethod, target, version) + CRLF + RenderFields(fields) + CRLF + body
  }

  predicate WellFormedRequest(httpMethod: string, target: string, version: string,
                              fields: seq<Field>, body: string)
  {
    && OneLine(httpMethod) && '/' !in httpMethod
    && OneLine(target) && ' ' !in target
    && OneLine(version)
    && AllWellFormed(fields)
    && OneLine(body)
  }

  lemma {:induction false} RenderFieldsShape(fields: seq<Field>)
    ensures |fields| > 0 ==> |RenderFields(fields)| >= 4
    ensures |fields| > 0 ==> RenderFields(fields)[|RenderFields(fields)| - 1] == '\n'
    ensures |fields| == 0 ==> RenderFields(fields) == ""
    decreases |fields|
  {
    if |fields| > 0 {
      RenderFieldsShape(fields[1..]);
    }
  }

  /** The line rendered from a well-formed field, found at `pos`, is read
      back as that field, and the scan resumes just after it. */
  lemma ScanLineRendered(text: string, pos: nat, f: Field)
    requires Fits(text) && WellFormedField(f)
    requires pos + |RenderField(f)| <= |text| && text[pos..pos + |RenderField(f)|] == RenderField(f)
    ensures ScanLine(text, pos) == Success(Line(f, pos + |RenderField(f)|))
  {
    var ke: Size := pos + |f.key|;
    var ve: Size := pos + |f.key| + 2 + |f.value|;
    KeyEndRendered(text, pos, f);
    ValueEndRendered(text, pos, f);
    ScanLineAt(text, pos, ke, ve);
    LineAtRendered(text, pos, f);
  }

  /** With both delimiters found, the scan cuts the line between them. */
  lemma ScanLineAt(text: string, pos: Size, keyEnd: Size, valueEnd: Size)
    requires Fits(text)
    requires FindFirstOf(text, KEY_ENDS, pos) == Some(keyEnd)
    requires FindFirstOf(text, LINE_ENDS, pos) == Some(valueEnd)
    ensures pos <= keyEnd < |text| && pos <= valueEnd < |text|
    ensures ScanLine(text, pos) == LineAt(text, pos, keyEnd, valueEnd)
  {
  }

  /** With the delimiter and the line end located, the key and the value
      are cut out exactly. */
  lemma LineAtRendered(text: string, pos: nat, f: Field)
    requires Fits(text) && WellFormedField(f)
    requires pos + |RenderField(f)| <= |text| && text[pos..pos + |RenderField(f)|] == RenderField(f)
    requires FindFirstOf(text, KEY_ENDS, pos) == Some(pos + |f.key|)
    ensures LineAt(text, pos, pos + |f.key|, pos + |f.key| + 2 + |f.value|)
         == Success(Line(f, pos + |RenderField(f)|))
  {
    var k := |f.key|;
    var v := |f.value|;
    KeyCut(text, pos, f);
    ValueCut(text, pos, f);
    assert SizeSub(pos + k, pos) == k;
    assert SizeAdd(pos + k, 2) == pos + k + 2;
    assert SizeSub(SizeSub(pos + k + 2 + v, pos + k), 2) == v;
    assert SizeAdd(pos + k + 2 + v, 2) == pos + |RenderField(f)|;
  }

  lemma KeyCut(text: string, pos: nat, f: Field)
    requires pos + |RenderField(f)| <= |text| && text[pos..pos + |RenderField(f)|] == RenderField(f)
    ensures SubstrInRange(text, pos, |f.key|) == f.key
  {
    var line := RenderField(f);
    SliceOfSlice(text, pos, line, 0, |f.key|);
    assert line[..|f.key|] == f.key;
  }

  lemma ValueCut(text: string, pos: nat, f: Field)
    requires pos + |RenderField(f)| <= |text| && text[pos..pos + |RenderField(f)|] == RenderField(f)
    ensures Substr(text, pos + |f.key| + 2, |f.value|) == Success(f.value)
  {
    var line := RenderField(f);
    var k := |f.key|;
    SliceOfSlice(text, pos, line, k + 2, k + 2 + |f.value|);
    assert line[k + 2..k + 2 + |f.value|] == f.value;
  }

  lemma SliceOfSlice(text: string, pos: nat, part: string, a: nat, b: nat)
    requires pos + |part| <= |text| && text[pos..pos + |part|] == part
    requires a <= b <= |part|
    ensures text[pos + a..pos + b] == part[a..b]
  {
    forall j | 0 <= j < b - a
      ensures text[pos + a..pos + b][j] == part[a..b][j]
    {
      assert text[pos..pos + |part|][a + j] == text[pos + a + j];
    }
  }

  lemma KeyEndRendered(text: string, pos: nat, f: Field)
    requires WellFormedField(f)
    requires pos + |RenderField(f)| <= |text| && text[pos..pos + |RenderField(f)|] == RenderField(f)
    ensures FindFirstOf(text, KEY_ENDS, pos) == Some(pos + |f.key|)
  {
    var line := RenderField(f);
    assert forall j | 0 <= j < |line| :: text[pos + j] == line[j];
    forall j | pos <= j < pos + |f.key|
      ensures text[j] !in KEY_ENDS
    {
      assert text[j] == f.key[j - pos];
    }
    assert text[pos + |f.key|] == ':';
    FindFirstAt(text, KEY_ENDS, pos, true, pos + |f.key|);
  }

  lemma ValueEndRendered(text: string, pos: nat, f: Field)
    requires WellFormedField(f)
    requires pos + |RenderField(f)| <= |text| && text[pos..pos + |RenderField(f)|] == RenderField(f)
    ensures FindFirstOf(text, LINE_ENDS, pos) == Some(pos + |f.key| + 2 + |f.value|)
  {
    var line := RenderField(f);
    var k := |f.key|;
    assert forall j | 0 <= j < |line| :: text[pos + j] == line[j];
    forall j | pos <= j < pos + k + 2 + |f.value|
      ensures text[j] !in LINE_ENDS
    {
      if j < pos + k {
        assert text[j] == f.key[j - pos];
      } else if j >= pos + k + 2 {
        assert text[j] == f.value[j - pos - k - 2];
      }
    }
    assert text[pos + k + 2 + |f.value|] == '\r';
    FindFirstAt(text, LINE_ENDS, pos, true, pos + k + 2 + |f.value|);
  }

  /** One turn of the loop: a line read at `pos` is followed by whatever the
      scan from the next line collects. */
  lemma ScanHeadersStep(text: string, pos: Size, headersEnd: Size, f: Field, next: Size, rest: seq<Field>)
    requires Fits(text) && pos < headersEnd
    requires ScanLine(text, pos) == Success(Line(f, next))
    requires ScanHeaders(text, next, headersEnd) == Success(rest)
    ensures ScanHeaders(text, pos, headersEnd) == Success([f] + rest)
  {
  }

  /** Scanning rendered fields from the start of one of them, with the loop
      bound at the final LF, yields exactly those fields. */
  lemma {:induction false} ScanRendered(text: string, pos: nat, fields: seq<Field>, headersEnd: Size)
    requires Fits(text) && |text| > 0 && headersEnd == |text| - 1
    requires pos <= |text| && text[pos..] == RenderFields(fields)
    requires AllWellFormed(fields)
    ensures ScanHeaders(text, pos, headersEnd) == Success(fields)
    decreases |fields|
  {
    if |fields| == 0 {
      assert |text[pos..]| == 0;
    } else {
      var next := FirstRendered(text, pos, fields);
      ScanRendered(text, next, fields[1..], headersEnd);
      ScanHeadersStep(text, pos, headersEnd, fields[0], next, fields[1..]);
      assert [fields[0]] + fields[1..] == fields;
    }
  }

  /** The first of the rendered fields is read at `pos`; the rest follow it. */
  lemma FirstRendered(text: string, pos: nat, fields: seq<Field>) returns (next: Size)
    requires Fits(text) && |fields| > 0
    requires pos <= |text| && text[pos..] == RenderFields(fields)
    requires AllWellFormed(fields)
    ensures AllWellFormed(fields[1..])
    ensures ScanLine(text, pos) == Success(Line(fields[0], next))
    ensures pos < next <= |text| && text[next..] == RenderFields(fields[1..])
  {
    var line := RenderField(fields[0]);
    assert text[pos..] == line + RenderFields(fields[1..]);
    SplitSuffix(text, pos, line, RenderFields(fields[1..]));
    next := pos + |line|;
    assert WellFormedField(fields[0]);
    ScanLineRendered(text, pos, fields[0]);
    assert forall i | 0 <= i < |fields| - 1 :: fields[1..][i] == fields[i + 1];
  }

  /** The request line at the start of the text yields the method and the
      path without its leading slash. */
  lemma RequestLineRendered(s: string, httpMethod: string, target: string, version: string, rest: string)
    requires Fits(s) && s == RequestLine(httpMethod, target, version) + rest
    requires OneLine(httpMethod) && '/' !in httpMethod && ' ' !in target
    ensures MethodOf(s) == httpMethod && PathOf(s) == target
  {
    var a := |httpMethod|;
    assert s == httpMethod + " /" + (target + " " + version + rest);
    SlashAfter(s, httpMethod, target + " " + version + rest);
    assert s[a + 1..] == "/" + target + " " + (version + rest);
    SpaceAfter(s, a + 1, target, version + rest);
  }

  /** The first '/' is the one after the method and its separator. */
  lemma SlashAfter(s: string, httpMethod: string, tail: string)
    requires s == httpMethod + " /" + tail && '/' !in httpMethod
    ensures FindFirstOf(s, {'/'}, 0) == Some(|httpMethod| + 1)
    ensures s[..|httpMethod|] == httpMethod
  {
    forall j | 0 <= j < |httpMethod| + 1
      ensures s[j] != '/'
    {
      if j < |httpMethod| {
        assert s[j] == httpMethod[j];
      }
    }
    FindFirstAt(s, {'/'}, 0, true, |httpMethod| + 1);
  }

  /** After the slash at `pos`, the next ' ' is the one that ends the target. */
  lemma SpaceAfter(s: string, pos: nat, target: string, tail: string)
    requires pos <= |s| && s[pos..] == "/" + target + " " + tail && ' ' !in target
    ensures FindFirstOf(s, {' '}, pos) == Some(pos + 1 + |target|)
    ensures s[pos + 1..pos + 1 + |target|] == target
  {
    forall j | pos <= j < pos + 1 + |target|
      ensures s[j] != ' '
    {
      assert s[j] == s[pos..][j - pos];
      if j > pos {
        assert s[j] == target[j - pos - 1];
      }
    }
    assert s[pos + 1 + |target|] == s[pos..][1 + |target|];
    FindFirstAt(s, {' '}, pos, true, pos + 1 + |target|);
    forall j | 0 <= j < |target|
      ensures s[pos + 1..pos + 1 + |target|][j] == target[j]
    {
      assert s[pos + 1 + j] == s[pos..][1 + j];
    }
  }

  lemma RequestLineOneLine(httpMethod: string, target: string, version: string)
    requires OneLine(httpMethod) && OneLine(target) && OneLine(version)
    ensures OneLine(RequestLine(httpMethod, target, version))
  {
    var line := RequestLine(httpMethod, target, version);
    var a := |httpMethod|;
    forall j | 0 <= j < |line|
      ensures line[j] !in LINE_ENDS
    {
      if j < a {
        assert line[j] == httpMethod[j];
      } else if j < a + 2 {
      } else if j < a + 2 + |target| {
        assert line[j] == target[j - a - 2];
      } else if j > a + 2 + |target| {
        assert line[j] == version[j - a - 3 - |target|];
      }
    }
  }

  /** The last line end is the one that ends `head`. */
  lemma LastLineEnd(s: string, head: string, body: string)
    requires s == head + body && |head| > 0 && head[|head| - 1] == '\n'
    requires OneLine(body)
    ensures FindLastOf(s, LINE_ENDS) == Some(|head| - 1)
  {
    assert forall j | 0 <= j < |body| :: s[|head| + j] == body[j];
    forall j | |head| <= j < |s|
      ensures s[j] !in LINE_ENDS
    {
    }
    FindLastAt(s, LINE_ENDS, true, |head| - 1);
  }

  /** A body after the last line end is read back whole. */
  lemma BodyRendered(s: string, head: string, body: string)
    requires Fits(s) && s == head + body && |head| > 0 && head[|head| - 1] == '\n'
    requires OneLine(body)
    ensures BodyOf(s) == body
  {
    LastLineEnd(s, head, body);
    assert s[|head|..] == body;
  }

  /** The header block between the request line and the blank line is
      scanned back into the rendered fields. */
  lemma HeadersRendered(s: string, line: string, fields: seq<Field>, body: string)
    requires Fits(s) && s == line + CRLF + RenderFields(fields) + CRLF + body
    requires OneLine(line) && OneLine(body)
    requires AllWellFormed(fields)
    ensures ParseHeaders(s) == Success(Collect(fields))
  {
    var block := RenderFields(fields);
    assert s == line + CRLF + block + CRLF + body;
    HeaderBlock(s, line, block, body);
    assert Fits(block);
    ScanBlock(block, fields);
    HeadersFromBlock(s, line, block, fields, body);
  }

  lemma HeadersFromBlock(s: string, line: string, block: string, fields: seq<Field>, body: string)
    requires Fits(s) && s == line + CRLF + block + CRLF + body
    requires FindFirstOf(s, LINE_ENDS, 0) == Some(|line|)
    requires FindLastOf(s, LINE_ENDS) == Some(|line| + |block| + 3)
    requires Substr(s, |line| + 2, |block|) == Success(block)
    requires ScanHeaders(block, 0, AsSize(FindLastOf(block, LINE_ENDS))) == Success(fields)
    ensures ParseHeaders(s) == Success(Collect(fields))
  {
    assert SizeAdd(|line|, 2) == |line| + 2;
    assert SizeSub(SizeSub(|line| + |block| + 3, |line|), 3) == |block|;
  }

  /** The header text holding the rendered fields is scanned back into them. */
  lemma ScanBlock(block: string, fields: seq<Field>)
    requires Fits(block) && block == RenderFields(fields)
    requires AllWellFormed(fields)
    ensures ScanHeaders(block, 0, AsSize(FindLastOf(block, LINE_ENDS))) == Success(fields)
  {
    RenderFieldsShape(fields);
    if |fields| == 0 {
      assert ScanHeaders(block, 0, AsSize(FindLastOf(block, LINE_ENDS))) == Success([]);
    } else {
      FindLastAt(block, LINE_ENDS, true, |block| - 1);
      ScanRendered(block, 0, fields, |block| - 1);
    }
  }

  /** Between a one-line request line and a one-line body, the header text
      parseHeaders cuts out is exactly the block in between. */
  lemma HeaderBlock(s: string, line: string, block: string, body: string)
    requires Fits(s) && s == line + CRLF + block + CRLF + body
    requires OneLine(line) && OneLine(body)
    ensures FindFirstOf(s, LINE_ENDS, 0) == Some(|line|)
    ensures FindLastOf(s, LINE_ENDS) == Some(|line| + |block| + 3)
    ensures Substr(s, |line| + 2, |block|) == Success(block)
  {
    var hs := |line|;
    assert FindFirstOf(s, LINE_ENDS, 0) == Some(hs) by {
      assert forall j | 0 <= j < |line| :: s[j] == line[j];
      forall j | 0 <= j < hs
        ensures s[j] !in LINE_ENDS
      {
      }
      FindFirstAt(s, LINE_ENDS, 0, true, hs);
    }
    var head := line + CRLF + block + CRLF;
    assert s == head + body;
    LastLineEnd(s, head, body);
    var rest := block + CRLF + body;
    assert s == (line + CRLF) + rest;
    assert s[hs + 2..] == rest;
    assert rest == block + (CRLF + body);
    SplitSuffix(s, hs + 2, block, CRLF + body);
  }

  /** Every well-formed request text parses back to the parts it was written
      from: the method, the path without its leading slash, the fields
      collected into the map (a later duplicate wins, keys kept as written)
      and the body. */
  lemma ParseRendered(httpMethod: string, target: string, version: string,
                      fields: seq<Field>, body: string)
    requires WellFormedRequest(httpMethod, target, version, fields, body)
    requires Fits(RenderRequest(httpMethod, target, version, fields, body))
    ensures Parse(RenderRequest(httpMethod, target, version, fields, body))
         == Success(Request(httpMethod, target, "", Collect(fields), "", body))
  {
    var line := RequestLine(httpMethod, target, version);
    var block := RenderFields(fields);
    var s := RenderRequest(httpMethod, target, version, fields, body);
    assert s == line + (CRLF + block + CRLF + body);
    RequestLineRendered(s, httpMethod, target, version, CRLF + block + CRLF + body);
    assert OneLine(line) by {
      RequestLineOneLine(httpMethod, target, version);
    }
    assert s == line + CRLF + block + CRLF + body;
    HeadersRendered(s, line, fields, body);
    assert s == (line + CRLF + block + CRLF) + body;
    BodyRendered(s, line + CRLF + block + CRLF, body);
  }
}
