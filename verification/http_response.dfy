/** HttpResponse: the response record, its serialisation by sendResponse, and
    the Accept-Encoding negotiation (split, trim, getSupportedEncodings) that
    decides whether a Content-Encoding line is written. */
module HttpResponse {
  import opened Results
  import opened CppString
  import opened Decimal

  /** The six constructor arguments. `contentLength` is the size_t the
      caller passes; it is printed as given, never compared with the body.
      Every caller passes 0 or a string's length(), and a std::string is
      always shorter than 2^64, so the size_t never wraps and is a nat here. */
  datatype Response = Response(
    message: string,
    statusCode: int,
    contentType: string,
    contentLength: nat,
    body: string,
    headers: map<string, string>)

  const WHITESPACE_DELIMITER: string := " "
  const CARRIAGE_DELIMITER: string := "\r\n"
  const COLON_DELIMITER: string := ":"
  const HTTP_VERSION: string := "HTTP/1.1"
  const CONTENT_TYPE: string := "Content-Type"
  const CONTENT_LENGTH: string := "Content-Length"
  const CONTENT_ENCODING: string := "Content-Encoding"
  const ACCEPT_ENCODING: string := "Accept-Encoding"

  /** The encodings the server is willing to name, in preference order. */
  const SUPPORTED_ENCODINGS: seq<string> := ["gzip"]

  /** The characters trim strips: " \t\n\r" read as a set by the
      find_*_not_of searches. */
  const TRIM_CHARS: set<char> := {' ', '\t', '\n', '\r'}

  predicate AllTrimmable(s: string) {
    forall i | 0 <= i < |s| :: s[i] in TRIM_CHARS
  }

  /** Neither end of `s` is a trimmable character (trivially so when empty). */
  predicate Tight(s: string) {
    |s| > 0 ==> s[0] !in TRIM_CHARS && s[|s| - 1] !in TRIM_CHARS
  }

  /* ----------------------------- trim ----------------------------- */

  /** trim: the text between the first and the last character that is not
      whitespace, or "" when there is none. */
  function Trim(s: string): (r: string)
    ensures r == "" <==> AllTrimmable(s)
    ensures Tight(r)
    ensures exists i | 0 <= i <= |s| - |r| ::
      s[i..i + |r|] == r && AllTrimmable(s[..i]) && AllTrimmable(s[i + |r|..])
  {
    var first := FindFirstNotOf(s, TRIM_CHARS, 0);
    var last := FindLastNotOf(s, TRIM_CHARS);
    if first.None? || last.None? then
      assert AllTrimmable(s[..0]) && AllTrimmable(s[0..]) by {
        if |s| > 0 {
          assert first.None?;
        }
      }
      ""
    else
      var i := first.value;
      var l := last.value;
      var r := SubstrInRange(s, i, l - i + 1);
      TrimmedBetween(s, i, l);
      assert r == s[i..l + 1] && s[i + |r|..] == s[l + 1..];
      r
  }

  /** The text between the first and the last non-whitespace character is
      tight, and only whitespace lies around it. */
  lemma TrimmedBetween(s: string, i: nat, l: nat)
    requires FindFirstNotOf(s, TRIM_CHARS, 0) == Some(i)
    requires FindLastNotOf(s, TRIM_CHARS) == Some(l)
    ensures i <= l < |s|
    ensures s[i..l + 1] != "" && Tight(s[i..l + 1])
    ensures AllTrimmable(s[..i]) && AllTrimmable(s[l + 1..])
  {
    assert forall j | 0 <= j < i :: s[..i][j] in TRIM_CHARS;
    var tail := s[l + 1..];
    assert forall j | 0 <= j < |tail| :: tail[j] == s[l + 1 + j];
  }

  /** Trimming whitespace-padded text that is already tight gives that text
      back: the characterisation that pins trim down completely. */
  lemma TrimPadded(a: string, x: string, b: string)
    requires AllTrimmable(a) && AllTrimmable(b) && Tight(x)
    ensures Trim(a + x + b) == x
  {
    var s := a + x + b;
    if |x| == 0 {
      assert forall j | 0 <= j < |s| :: s[j] in TRIM_CHARS by {
        forall j | 0 <= j < |s|
          ensures s[j] in TRIM_CHARS
        {
          if j < |a| {
            assert s[j] == a[j];
          } else {
            assert s[j] == b[j - |a|];
          }
        }
      }
    } else {
      forall j | 0 <= j < |a|
        ensures s[j] in TRIM_CHARS
      {
        assert s[j] == a[j];
      }
      assert s[|a|] == x[0];
      FindFirstNotAt(s, |a|);
      forall j | |a| + |x| <= j < |s|
        ensures s[j] in TRIM_CHARS
      {
        assert s[j] == b[j - |a| - |x|];
      }
      assert s[|a| + |x| - 1] == x[|x| - 1];
      FindLastNotAt(s, |a| + |x| - 1);
      assert s[|a|..|a| + |x|] == x;
    }
  }

  lemma FindFirstNotAt(s: string, i: nat)
    requires i < |s| && s[i] !in TRIM_CHARS
    requires forall j | 0 <= j < i :: s[j] in TRIM_CHARS
    ensures FindFirstNotOf(s, TRIM_CHARS, 0) == Some(i)
  {
    FindFirstAt(s, TRIM_CHARS, 0, false, i);
  }

  lemma FindLastNotAt(s: string, i: nat)
    requires i < |s| && s[i] !in TRIM_CHARS
    requires forall j | i < j < |s| :: s[j] in TRIM_CHARS
    ensures FindLastNotOf(s, TRIM_CHARS) == Some(i)
  {
    FindLastAt(s, TRIM_CHARS, false, i);
  }

  /** Trimming twice is trimming once. */
  lemma TrimIdempotent(s: string)
    ensures Trim(Trim(s)) == Trim(s)
  {
    var r := Trim(s);
    TrimPadded("", r, "");
    assert "" + r + "" == r;
  }

  /* ----------------------------- split ----------------------------- */

  /** split: the pieces between consecutive occurrences of `delimiter`, each
      trimmed. The loop's `start` only ever moves just past a delimiter, so
      what is left to split is always the suffix from `start`; the loop is
      written here as recursion on that suffix. */
  function Split(s: string, delimiter: char): (r: seq<string>)
    ensures |r| > 0 && forall i | 0 <= i < |r| :: Tight(r[i])
    decreases |s|
  {
    match Find(s, delimiter, 0)
    case None => [Trim(s)]
    case Some(end) => [Trim(s[..end])] + Split(s[end + 1..], delimiter)
  }

  /** split yields one piece more than there are delimiters. */
  lemma {:induction false} SplitCount(s: string, delimiter: char)
    ensures |Split(s, delimiter)| == Occurrences(s, delimiter) + 1
    decreases |s|
  {
    match Find(s, delimiter, 0)
    case None =>
      NoOccurrences(s, delimiter);
    case Some(end) =>
      SplitCount(s[end + 1..], delimiter);
      DelimiterCount(s, delimiter, end);
  }

  /** Cutting at the first delimiter accounts for one occurrence; the rest
      lie after it. */
  lemma DelimiterCount(s: string, delimiter: char, end: nat)
    requires end < |s| && s[end] == delimiter
    requires forall j | 0 <= j < end :: s[j] != delimiter
    ensures Occurrences(s, delimiter) == Occurrences(s[end + 1..], delimiter) + 1
  {
    var piece := s[..end];
    assert s == piece + ([delimiter] + s[end + 1..]);
    NoOccurrences(piece, delimiter);
    OccurrencesAppend(piece, [delimiter] + s[end + 1..], delimiter);
    assert ([delimiter] + s[end + 1..])[1..] == s[end + 1..];
  }

  /** How many times `c` occurs in `s`. */
  function Occurrences(s: string, c: char): nat {
    if |s| == 0 then 0 else (if s[0] == c then 1 else 0) + Occurrences(s[1..], c)
  }

  lemma {:induction false} OccurrencesAppend(a: string, b: string, c: char)
    ensures Occurrences(a + b, c) == Occurrences(a, c) + Occurrences(b, c)
    decreases |a|
  {
    if |a| > 0 {
      OccurrencesAppend(a[1..], b, c);
      assert (a + b)[1..] == a[1..] + b;
    } else {
      assert a + b == b;
    }
  }

  lemma {:induction false} NoOccurrences(s: string, c: char)
    requires forall i | 0 <= i < |s| :: s[i] != c
    ensures Occurrences(s, c) == 0
    decreases |s|
  {
    if |s| > 0 {
      NoOccurrences(s[1..], c);
    }
  }

  /** The pieces joined back with the delimiter between them. */
  function Join(pieces: seq<string>, delimiter: char): string
    requires |pieces| > 0
  {
    if |pieces| == 1 then pieces[0] else pieces[0] + [delimiter] + Join(pieces[1..], delimiter)
  }

  /** Each piece trimmed, in order. */
  function TrimAll(pieces: seq<string>): seq<string> {
    if |pieces| == 0 then [] else [Trim(pieces[0])] + TrimAll(pieces[1..])
  }

  /** Splitting text made of delimiter-free pieces yields each piece trimmed:
      split inverts joining, up to the trimming. */
  lemma {:induction false} SplitJoin(pieces: seq<string>, delimiter: char)
    requires |pieces| > 0
    requires forall i | 0 <= i < |pieces| :: delimiter !in pieces[i]
    ensures Split(Join(pieces, delimiter), delimiter) == TrimAll(pieces)
    decreases |pieces|
  {
    if |pieces| == 1 {
      LastPiece(pieces, delimiter);
    } else {
      var end := FirstPiece(pieces, delimiter);
      DelimiterFreeTail(pieces, delimiter);
      SplitJoin(pieces[1..], delimiter);
      SplitCons(Join(pieces, delimiter), delimiter, end, pieces);
    }
  }

  /** A single piece has no delimiter in it and is split off whole. */
  lemma LastPiece(pieces: seq<string>, delimiter: char)
    requires |pieces| == 1 && delimiter !in pieces[0]
    ensures Split(Join(pieces, delimiter), delimiter) == TrimAll(pieces)
  {
    var s := pieces[0];
    forall j | 0 <= j < |s|
      ensures s[j] !in {delimiter}
    {
    }
    FindFirstNone(s, {delimiter}, 0, true);
    assert TrimAll(pieces[1..]) == [];
  }

  /** The first of several joined pieces ends at the first delimiter, and
      the remaining pieces are joined after it. */
  lemma FirstPiece(pieces: seq<string>, delimiter: char) returns (end: nat)
    requires |pieces| > 1 && delimiter !in pieces[0]
    ensures end == |pieces[0]| < |Join(pieces, delimiter)|
    ensures Find(Join(pieces, delimiter), delimiter, 0) == Some(end)
    ensures Join(pieces, delimiter)[..end] == pieces[0]
    ensures Join(pieces, delimiter)[end + 1..] == Join(pieces[1..], delimiter)
  {
    var s := Join(pieces, delimiter);
    var p := pieces[0];
    var tail := Join(pieces[1..], delimiter);
    assert s == p + ([delimiter] + tail);
    end := |p|;
    forall j | 0 <= j < end
      ensures s[j] !in {delimiter}
    {
      assert s[j] == p[j];
    }
    assert s[end] == delimiter;
    FindFirstAt(s, {delimiter}, 0, true, end);
    assert s[..end] == p;
    assert s[end + 1..] == tail;
  }

  lemma DelimiterFreeTail(pieces: seq<string>, delimiter: char)
    requires |pieces| > 0
    requires forall i | 0 <= i < |pieces| :: delimiter !in pieces[i]
    ensures forall i | 0 <= i < |pieces[1..]| :: delimiter !in pieces[1..][i]
  {
    forall i | 0 <= i < |pieces[1..]|
      ensures delimiter !in pieces[1..][i]
    {
      assert pieces[1..][i] == pieces[i + 1];
    }
  }

  /** The first piece in front of the split of the rest is the split of the
      whole. */
  lemma SplitCons(s: string, delimiter: char, end: nat, pieces: seq<string>)
    requires |pieces| > 1 && end < |s|
    requires Find(s, delimiter, 0) == Some(end) && s[..end] == pieces[0]
    requires Split(s[end + 1..], delimiter) == TrimAll(pieces[1..])
    ensures Split(s, delimiter) == TrimAll(pieces)
  {
  }

  /* ---------------------- encoding negotiation ---------------------- */

  /** The first requested encoding that the server supports, or "". */
  function FirstSupported(requested: seq<string>): (r: string)
    ensures r == "" <==> forall i | 0 <= i < |requested| :: requested[i] !in SUPPORTED_ENCODINGS
    ensures r != "" ==>
      && r in SUPPORTED_ENCODINGS
      && exists i | 0 <= i < |requested| ::
           requested[i] == r && forall j | 0 <= j < i :: requested[j] !in SUPPORTED_ENCODINGS
  {
    if |requested| == 0 then ""
    else if requested[0] in SUPPORTED_ENCODINGS then requested[0]
    else
      var r := FirstSupported(requested[1..]);
      assert forall i | 1 <= i < |requested| :: requested[i] == requested[1..][i - 1];
      assert r != "" ==> requested[1..][IndexOf(requested[1..], r)] == r;
      r
  }

  /** Some position of `x` in `s` (used only to name a witness). */
  function IndexOf(s: seq<string>, x: string): (i: nat)
    requires x in s
    ensures i < |s| && s[i] == x
  {
    if s[0] == x then 0 else 1 + IndexOf(s[1..], x)
  }

  /** getSupportedEncodings: the Accept-Encoding value, looked up by its exact
      spelling, split at commas and trimmed, negotiated against the supported
      list. With only "gzip" supported the answer is "gzip" or "". */
  function SupportedEncoding(headers: map<string, string>): (r: string)
    ensures r == "" || r == "gzip"
    ensures r == "gzip" <==> ACCEPT_ENCODING in headers && "gzip" in Split(headers[ACCEPT_ENCODING], ',')
  {
    if ACCEPT_ENCODING in headers then
      var requested := Split(headers[ACCEPT_ENCODING], ',');
      var r := FirstSupported(requested);
      assert "gzip" in requested ==> requested[IndexOf(requested, "gzip")] in SUPPORTED_ENCODINGS;
      r
    else ""
  }

  /* ------------------------- serialisation ------------------------- */

  /** `Name: value` followed by CRLF, as sendResponse writes each header. */
  function HeaderLine(name: string, value: string): string {
    name + COLON_DELIMITER + WHITESPACE_DELIMITER + value + CARRIAGE_DELIMITER
  }

  function StatusLine(statusCode: int, message: string): string {
    HTTP_VERSION + WHITESPACE_DELIMITER + IntToDecimal(statusCode) + WHITESPACE_DELIMITER + message + CARRIAGE_DELIMITER
  }

  /** The Content-Encoding line, present only when an encoding was negotiated. */
  function EncodingLine(headers: map<string, string>): string {
    var encoding := SupportedEncoding(headers);
    if encoding == "" then "" else HeaderLine(CONTENT_ENCODING, encoding)
  }

  /** The header section: the optional Content-Encoding line, then
      Content-Type and Content-Length from the stored length. */
  function HeaderLines(r: Response): string {
    EncodingLine(r.headers)
      + HeaderLine(CONTENT_TYPE, r.contentType)
      + HeaderLine(CONTENT_LENGTH, NatToDecimal(r.contentLength))
  }

  /** sendResponse: status line, header section, a blank line, and the body
      as stored (no compression is applied). */
  function Serialize(r: Response): string {
    StatusLine(r.statusCode, r.message) + HeaderLines(r) + CARRIAGE_DELIMITER + r.body
  }
}
