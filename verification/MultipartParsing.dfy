/** Taking a multipart body apart again, as section 5.1.1 of RFC 2046 describes it. */
module MultipartParsing {
  import opened Wrappers
  import opened Multipart

  /** Where `d` occurs first. */
  function Find(s: Bytes, d: Bytes): (i: Option<nat>)
    ensures i.Some? ==> i.value + |d| <= |s| && s[i.value..i.value + |d|] == d
  {
    if d <= s then Some(0)
    else if s == [] then None
    else
      var i := Find(s[1..], d);
      if i.None? then None else Some(i.value + 1)
  }

  predicate Contains(s: Bytes, d: Bytes) {
    Find(s, d).Some?
  }

  /** The pieces between the occurrences of `d`. */
  function Split(s: Bytes, d: Bytes): (pieces: seq<Bytes>)
    requires d != []
    ensures pieces != []
    decreases |s|
  {
    var i := Find(s, d);
    if i.None? then [s] else [s[..i.value]] + Split(s[i.value + |d|..], d)
  }

  /** A delimiter: a line break, two dashes and the boundary. */
  function Delimiter(boundary: Bytes): Bytes {
    CRLF + DASHES + boundary
  }

  /** The parts among the pieces behind a delimiter: each begins with the end of the delimiter's line, up to the one
      whose delimiter is closed by two dashes. */
  function PartsIn(pieces: seq<Bytes>): Option<seq<Bytes>> {
    if pieces == [] then None
    else if DASHES <= pieces[0] then Some([])
    else if !(CRLF <= pieces[0]) then None
    else
      var rest := PartsIn(pieces[1..]);
      if rest.None? then None else Some([pieces[0][2..]] + rest.value)
  }

  /** The parts of a body.  The first delimiter may stand at the very beginning, as if a line had just ended. */
  function Parse(boundary: Bytes, s: Bytes): Option<seq<Bytes>> {
    PartsIn(Split(CRLF + s, Delimiter(boundary))[1..])
  }

  /** No carriage return but the first of the delimiter. */
  predicate ValidBoundary(boundary: Bytes) {
    CR !in boundary
  }

  /** The part does not hold a delimiter, not even one that begins with the line break before it. */
  predicate Clean(boundary: Bytes, part: Part) {
    !Contains(CRLF + Content(part), Delimiter(boundary))
  }

  // ----- Finding delimiters -----

  lemma {:induction false} FindNext(x: Bytes, d: Bytes, t: Bytes)
    requires d != [] && !Contains(x, d) && d[0] !in d[1..]
    ensures Find(x + (d + t), d) == Some(|x|)
  {
    var s := x + (d + t);
    if x == [] {
      assert s == d + t;
      assert d <= s;
    } else {
      assert s[1..] == x[1..] + (d + t);
      if |d| <= |x| {
        assert s[..|d|] == x[..|d|];
      } else {
        assert s[|x|] == d[0];
        assert d[|x|] == d[1..][|x| - 1];
      }
      FindNext(x[1..], d, t);
    }
  }

  lemma SplitNext(x: Bytes, d: Bytes, t: Bytes)
    requires d != [] && !Contains(x, d) && d[0] !in d[1..]
    ensures Split(x + (d + t), d) == [x] + Split(t, d)
  {
    FindNext(x, d, t);
    Around(x, d, t);
  }

  lemma Around(x: Bytes, d: Bytes, t: Bytes)
    ensures (x + (d + t))[..|x|] == x && (x + (d + t))[|x| + |d|..] == t
  {}

  lemma DelimiterShape(boundary: Bytes)
    requires ValidBoundary(boundary)
    ensures var d := Delimiter(boundary); d != [] && d[0] !in d[1..]
  {
    assert Delimiter(boundary)[1..] == [LF, DASH, DASH] + boundary;
  }

  /** The body from a delimiter on: what follows the delimiter before part `i`. */
  function Tail(boundary: Bytes, parts: seq<Part>, i: nat): Bytes
    requires i <= |parts|
    decreases |parts| - i
  {
    if i == |parts| then DASHES + CRLF
    else CRLF + Content(parts[i]) + (Delimiter(boundary) + Tail(boundary, parts, i + 1))
  }

  /** A part without its final delimiter. */
  function Opened(boundary: Bytes, part: Part, first: bool): Bytes {
    BoundaryData(if first then Initial else Encapsulated, boundary) + HeaderData(part.headers) + part.body
  }

  lemma Join(a: Bytes, b: Bytes, c: Bytes)
    ensures a + (b + c) == a + b + c
  {}

  function Before(first: bool): Bytes {
    if first then CRLF else []
  }

  lemma OpenedDelimiter(boundary: Bytes, part: Part, first: bool)
    ensures Before(first) + Opened(boundary, part, first) == Delimiter(boundary) + (CRLF + Content(part))
  {
    var b := BoundaryData(if first then Initial else Encapsulated, boundary);
    assert Before(first) + b == Delimiter(boundary) + CRLF;
    Join(b, HeaderData(part.headers), part.body);
    Join(Before(first), b, Content(part));
    Join(Delimiter(boundary), CRLF, Content(part));
  }

  lemma FromStep(boundary: Bytes, parts: seq<Part>, i: nat)
    requires i < |parts|
    ensures EncodedFrom(boundary, parts, i)
            == Opened(boundary, parts[i], i == 0)
             + if i == |parts| - 1 then Delimiter(boundary) + Tail(boundary, parts, i + 1)
               else EncodedFrom(boundary, parts, i + 1)
  {
    var head := Opened(boundary, parts[i], i == 0);
    if i == |parts| - 1 {
      Join(Delimiter(boundary), DASHES, CRLF);
      Nothing(head + BoundaryData(Final, boundary));
    } else {
      Nothing(head);
    }
  }

  lemma Combine(before: Bytes, head: Bytes, rest: Bytes, d: Bytes, c: Bytes)
    requires before + head == d + c
    ensures before + (head + rest) == d + (c + rest)
  {
    Join(before, head, rest);
    Join(d, c, rest);
  }

  lemma OneDelimiterMore(boundary: Bytes, parts: seq<Part>, i: nat)
    requires i < |parts|
    ensures Before(i == 0) + (Opened(boundary, parts[i], i == 0) + (Delimiter(boundary) + Tail(boundary, parts, i + 1)))
            == Delimiter(boundary) + Tail(boundary, parts, i)
  {
    OpenedDelimiter(boundary, parts[i], i == 0);
    Combine(Before(i == 0), Opened(boundary, parts[i], i == 0), Delimiter(boundary) + Tail(boundary, parts, i + 1),
            Delimiter(boundary), CRLF + Content(parts[i]));
  }

  lemma {:induction false} EncodedNext(boundary: Bytes, parts: seq<Part>, i: nat)
    requires i < |parts|
    ensures EncodedFrom(boundary, parts, i)
            == Opened(boundary, parts[i], i == 0) + (Delimiter(boundary) + Tail(boundary, parts, i + 1))
    decreases |parts| - i, 0
  {
    FromStep(boundary, parts, i);
    if i < |parts| - 1 {
      EncodedTail(boundary, parts, i + 1);
      NothingBeforeIt(EncodedFrom(boundary, parts, i + 1));
    }
  }

  /** The encoding in terms of delimiters. */
  lemma {:induction false} EncodedTail(boundary: Bytes, parts: seq<Part>, i: nat)
    requires i < |parts|
    ensures Before(i == 0) + EncodedFrom(boundary, parts, i) == Delimiter(boundary) + Tail(boundary, parts, i)
    decreases |parts| - i, 1
  {
    EncodedNext(boundary, parts, i);
    OneDelimiterMore(boundary, parts, i);
  }

  lemma Nothing(s: Bytes)
    ensures s + [] == s
  {}

  lemma NothingBeforeIt(s: Bytes)
    ensures Before(false) + s == s
  {}

  function Contents(parts: seq<Part>, i: nat): seq<Bytes>
    requires i <= |parts|
    decreases |parts| - i
  {
    if i == |parts| then [] else [Content(parts[i])] + Contents(parts, i + 1)
  }

  lemma {:induction false} CloseHasNoDelimiter(boundary: Bytes)
    ensures Split(DASHES + CRLF, Delimiter(boundary)) == [DASHES + CRLF]
  {
    var s, d := DASHES + CRLF, Delimiter(boundary);
    assert d[0] == CR && s[0] != CR && s[1..][0] != CR;
    assert s[1..][1..] == CRLF && CRLF[1..] == [LF] && [LF][1..] == [];
    assert |d| >= 4;
    assert Find([], d).None?;
    assert Find([LF], d).None?;
    assert Find(CRLF, d).None?;
    assert Find(s[1..], d).None?;
  }

  lemma {:induction false} SplitTail(boundary: Bytes, parts: seq<Part>, i: nat)
    requires ValidBoundary(boundary) && i <= |parts| && forall k | i <= k < |parts| :: Clean(boundary, parts[k])
    ensures PartsIn(Split(Tail(boundary, parts, i), Delimiter(boundary))) == Some(Contents(parts, i))
    decreases |parts| - i
  {
    var d := Delimiter(boundary);
    if i == |parts| {
      CloseHasNoDelimiter(boundary);
      assert DASHES <= DASHES + CRLF;
    } else {
      var x := CRLF + Content(parts[i]);
      DelimiterShape(boundary);
      assert Clean(boundary, parts[i]);
      SplitNext(x, d, Tail(boundary, parts, i + 1));
      SplitTail(boundary, parts, i + 1);
      assert x[2..] == Content(parts[i]) && CRLF <= x && x[0] != DASH;
      var pieces := Split(Tail(boundary, parts, i), d);
      assert pieces[1..] == Split(Tail(boundary, parts, i + 1), d);
    }
  }

  /** Splitting the encoded form at its delimiters gives the parts back. */
  lemma {:induction false} ParseRecoversParts(boundary: Bytes, parts: seq<Part>)
    requires ValidBoundary(boundary) && parts != [] && forall k | 0 <= k < |parts| :: Clean(boundary, parts[k])
    ensures Parse(boundary, EncodedForm(boundary, parts)) == Some(Contents(parts, 0))
  {
    var d := Delimiter(boundary);
    EncodedTail(boundary, parts, 0);
    DelimiterShape(boundary);
    assert [] + (d + Tail(boundary, parts, 0)) == d + Tail(boundary, parts, 0);
    assert Before(true) == CRLF;
    assert Find([], d).None?;
    SplitNext([], d, Tail(boundary, parts, 0));
    assert Split(CRLF + EncodedForm(boundary, parts), d)[1..] == Split(Tail(boundary, parts, 0), d);
    SplitTail(boundary, parts, 0);
  }

  // ----- The condition is exact -----

  lemma {:induction false} PiecesAreClean(s: Bytes, d: Bytes)
    requires d != []
    ensures forall x | x in Split(s, d) :: !Contains(x, d)
    decreases |s|
  {
    var i := Find(s, d);
    if i.Some? {
      PiecesAreClean(s[i.value + |d|..], d);
      NothingBefore(s, d);
    }
  }

  lemma {:induction false} NothingBefore(s: Bytes, d: Bytes)
    requires d != [] && Find(s, d).Some?
    ensures !Contains(s[..Find(s, d).value], d)
  {
    var i := Find(s, d).value;
    if i > 0 {
      assert s[..i][1..] == s[1..][..i - 1];
      NothingBefore(s[1..], d);
      if |d| <= i {
        assert s[..i][..|d|] == s[..|d|];
      }
    } else {
      assert s[..0] == [];
    }
  }

  lemma {:induction false} PartsAreClean(pieces: seq<Bytes>, d: Bytes, k: nat)
    requires PartsIn(pieces).Some? && k < |PartsIn(pieces).value| && forall x | x in pieces :: !Contains(x, d)
    ensures !Contains(CRLF + PartsIn(pieces).value[k], d)
  {
    if k == 0 {
      assert pieces[0] == CRLF + pieces[0][2..];
      assert pieces[0] in pieces;
    } else {
      PartsAreClean(pieces[1..], d, k - 1);
    }
  }

  lemma {:induction false} ContentsAt(parts: seq<Part>, i: nat, k: nat)
    requires i + k < |parts|
    ensures |Contents(parts, i)| == |parts| - i && Contents(parts, i)[k] == Content(parts[i + k])
    decreases |parts| - i
  {
    if k > 0 {
      ContentsAt(parts, i + 1, k - 1);
    } else if i + 1 < |parts| {
      ContentsAt(parts, i + 1, 0);
    }
  }

  lemma {:induction false} RecoveredMeansClean(boundary: Bytes, parts: seq<Part>, k: nat)
    requires Parse(boundary, EncodedForm(boundary, parts)) == Some(Contents(parts, 0)) && k < |parts|
    ensures Clean(boundary, parts[k])
  {
    var pieces := Split(CRLF + EncodedForm(boundary, parts), Delimiter(boundary));
    PiecesAreClean(CRLF + EncodedForm(boundary, parts), Delimiter(boundary));
    ContentsAt(parts, 0, k);
    PartsAreClean(pieces[1..], Delimiter(boundary), k);
  }

  /** The parts come back if and only if none of them holds a delimiter. */
  lemma {:induction false} ParseRecoversExactly(boundary: Bytes, parts: seq<Part>)
    requires ValidBoundary(boundary) && parts != []
    ensures Parse(boundary, EncodedForm(boundary, parts)) == Some(Contents(parts, 0))
            <==> forall k | 0 <= k < |parts| :: Clean(boundary, parts[k])
  {
    if forall k | 0 <= k < |parts| :: Clean(boundary, parts[k]) {
      ParseRecoversParts(boundary, parts);
    }
    if Parse(boundary, EncodedForm(boundary, parts)) == Some(Contents(parts, 0)) {
      forall k | 0 <= k < |parts| ensures Clean(boundary, parts[k]) {
        RecoveredMeansClean(boundary, parts, k);
      }
    }
  }

  // ----- The content of a part -----

  const COLON_SPACE: Bytes := [58, 32]

  /** One line of a header: what stands before the first colon and space, and what stands behind them. */
  function ParseLine(line: Bytes): Option<Header> {
    var i := Find(line, COLON_SPACE);
    if i.None? then None else Some(Header(line[..i.value], line[i.value + 2..]))
  }

  /** Header lines up to an empty one, and then the body. */
  function ParseContent(s: Bytes): Option<Part>
    decreases |s|
  {
    if CRLF <= s then Some(Part([], s[2..]))
    else
      var i := Find(s, CRLF);
      if i.None? then None else WithHeader(ParseLine(s[..i.value]), ParseContent(s[i.value + 2..]))
  }

  function WithHeader(h: Option<Header>, rest: Option<Part>): Option<Part> {
    if h.None? || rest.None? then None else Some(Part([h.value] + rest.value.headers, rest.value.body))
  }

  function Line(h: Header): Bytes {
    h.name + (COLON_SPACE + h.value)
  }

  /** The line of the header ends where it should, and so does its name. */
  predicate Separable(h: Header) {
    !Contains(Line(h), CRLF) && !Contains(h.name, COLON_SPACE)
  }

  lemma LineFirst(h: Header, headers: seq<Header>, body: Bytes)
    ensures Content(Part([h] + headers, body)) == Line(h) + (CRLF + Content(Part(headers, body)))
  {
    assert ([h] + headers)[1..] == headers;
    var lines := HeaderLines(headers);
    assert HeaderLines([h] + headers) == Line(h) + (CRLF + lines);
    assert Line(h) + (CRLF + lines) + CRLF + body == Line(h) + (CRLF + (lines + CRLF + body));
  }

  lemma {:induction false} LineParses(h: Header)
    requires !Contains(h.name, COLON_SPACE)
    ensures ParseLine(Line(h)) == Some(h)
  {
    assert COLON_SPACE[1..] == [32];
    FindNext(h.name, COLON_SPACE, h.value);
    assert Line(h)[..|h.name|] == h.name && Line(h)[|h.name| + 2..] == h.value;
  }

  lemma {:induction false} ContentParses(part: Part)
    requires forall h | h in part.headers :: Separable(h)
    ensures ParseContent(Content(part)) == Some(part)
    decreases |part.headers|
  {
    if part.headers == [] {
      NoHeaders(part);
    } else {
      var h, others := part.headers[0], Part(part.headers[1..], part.body);
      assert part.headers == [h] + others.headers && Separable(h);
      LineFirst(h, others.headers, part.body);
      ParseStep(Line(h), Content(others));
      LineParses(h);
      ContentParses(others);
    }
  }

  lemma NoHeaders(part: Part)
    requires part.headers == []
    ensures ParseContent(Content(part)) == Some(part)
  {
    assert Content(part) == CRLF + part.body && (CRLF + part.body)[2..] == part.body;
  }

  lemma ParseStep(line: Bytes, t: Bytes)
    requires !Contains(line, CRLF) && |line| >= 2
    ensures ParseContent(line + (CRLF + t)) == WithHeader(ParseLine(line), ParseContent(t))
  {
    LineFound(line, t);
  }

  /** A line without a line break is the first one. */
  lemma LineFound(line: Bytes, t: Bytes)
    requires !Contains(line, CRLF) && |line| >= 2
    ensures var s := line + (CRLF + t);
            !(CRLF <= s) && Find(s, CRLF) == Some(|line|) && s[..|line|] == line && s[|line| + 2..] == t
  {
    assert CRLF[1..] == [LF];
    FindNext(line, CRLF, t);
    assert (line + (CRLF + t))[..2] == line[..2];
  }

  lemma Rejoin(s: Bytes, d: Bytes)
    requires Find(s, d).Some?
    ensures var i := Find(s, d).value; s == s[..i] + (d + s[i + |d|..])
  {}

  /** A text that parses is an empty line and a body, or a header line and a text that parses. */
  lemma ParsedStep(s: Bytes) returns (h: Header, rest: Bytes)
    requires ParseContent(s).Some? && !(CRLF <= s)
    ensures |rest| < |s| && ParseContent(rest).Some? && Separable(h) && s == Line(h) + (CRLF + rest)
    ensures ParseContent(s) == WithHeader(Some(h), ParseContent(rest))
  {
    var line: Bytes;
    line, rest := FirstLine(s);
    h := ParseLine(line).value;
    ParsedLine(line);
  }

  lemma FirstLine(s: Bytes) returns (line: Bytes, rest: Bytes)
    requires ParseContent(s).Some? && !(CRLF <= s)
    ensures s == line + (CRLF + rest) && !Contains(line, CRLF)
    ensures ParseLine(line).Some? && ParseContent(rest).Some?
    ensures ParseContent(s) == WithHeader(ParseLine(line), ParseContent(rest))
  {
    var i := Find(s, CRLF).value;
    line, rest := s[..i], s[i + 2..];
    Rejoin(s, CRLF);
    NothingBefore(s, CRLF);
  }

  lemma ParsedLine(line: Bytes)
    requires ParseLine(line).Some?
    ensures line == Line(ParseLine(line).value) && !Contains(ParseLine(line).value.name, COLON_SPACE)
  {
    Rejoin(line, COLON_SPACE);
    NothingBefore(line, COLON_SPACE);
  }

  /** What the parser makes of a text is a part with this content, whose headers are where they seem to be. */
  lemma {:induction false} ParsedContent(s: Bytes)
    requires ParseContent(s).Some?
    ensures var part := ParseContent(s).value; Content(part) == s && forall h | h in part.headers :: Separable(h)
    decreases |s|
  {
    if CRLF <= s {
      assert s == CRLF + s[2..];
    } else {
      var h, rest := ParsedStep(s);
      var part := ParseContent(rest).value;
      ParsedContent(rest);
      LineFirst(h, part.headers, part.body);
    }
  }

  /** Headers and body come back if and only if no header line holds a line break, and no name a colon and a space. */
  lemma {:induction false} ContentParsesExactly(part: Part)
    ensures ParseContent(Content(part)) == Some(part) <==> forall h | h in part.headers :: Separable(h)
  {
    if forall h | h in part.headers :: Separable(h) {
      ContentParses(part);
    }
    if ParseContent(Content(part)) == Some(part) {
      ParsedContent(Content(part));
    }
  }

  // ----- Whole forms -----

  function ParseContents(contents: seq<Bytes>): Option<seq<Part>> {
    if contents == [] then Some([])
    else
      var part, rest := ParseContent(contents[0]), ParseContents(contents[1..]);
      if part.None? || rest.None? then None else Some([part.value] + rest.value)
  }

  /** The parts of a body, with their headers. */
  function ParseForm(boundary: Bytes, s: Bytes): Option<seq<Part>> {
    var contents := Parse(boundary, s);
    if contents.None? then None else ParseContents(contents.value)
  }

  /** Delimiters and header lines are where they seem to be. */
  predicate WellFormed(boundary: Bytes, part: Part) {
    Clean(boundary, part) && forall h | h in part.headers :: Separable(h)
  }

  lemma {:induction false} ContentsParse(parts: seq<Part>, i: nat)
    requires i <= |parts| && forall k, h | i <= k < |parts| && h in parts[k].headers :: Separable(h)
    ensures ParseContents(Contents(parts, i)) == Some(parts[i..])
    decreases |parts| - i
  {
    if i < |parts| {
      ContentParses(parts[i]);
      ContentsParse(parts, i + 1);
      ContentsFirst(parts, i);
      ParseOneMore(Content(parts[i]), Contents(parts, i + 1), parts[i], parts[i + 1..]);
    }
  }

  lemma ContentsFirst(parts: seq<Part>, i: nat)
    requires i < |parts|
    ensures Contents(parts, i) == [Content(parts[i])] + Contents(parts, i + 1)
    ensures parts[i..] == [parts[i]] + parts[i + 1..]
  {}

  lemma ParseOneMore(content: Bytes, contents: seq<Bytes>, part: Part, parts: seq<Part>)
    requires ParseContent(content) == Some(part) && ParseContents(contents) == Some(parts)
    ensures ParseContents([content] + contents) == Some([part] + parts)
  {
    assert ([content] + contents)[1..] == contents;
  }

  lemma {:induction false} ContentsOfParsed(contents: seq<Bytes>, parts: seq<Part>, i: nat)
    requires i <= |parts| && ParseContents(contents) == Some(parts[i..])
    ensures contents == Contents(parts, i)
    decreases |parts| - i
  {
    if contents != [] {
      ParsedContent(contents[0]);
      assert |parts[i..]| > 0;
      assert parts[i..][0] == parts[i] && parts[i..][1..] == parts[i + 1..];
      ContentsOfParsed(contents[1..], parts, i + 1);
    }
  }

  /** A whole form comes back, with every name, value and body, if and only if its parts are well-formed. */
  lemma {:induction false} FormComesBack(boundary: Bytes, parts: seq<Part>)
    requires ValidBoundary(boundary) && parts != []
    ensures ParseForm(boundary, EncodedForm(boundary, parts)) == Some(parts)
            <==> forall k | 0 <= k < |parts| :: WellFormed(boundary, parts[k])
  {
    assert parts[0..] == parts;
    if forall k | 0 <= k < |parts| :: WellFormed(boundary, parts[k]) {
      ParseRecoversParts(boundary, parts);
      ContentsParse(parts, 0);
    }
    if ParseForm(boundary, EncodedForm(boundary, parts)) == Some(parts) {
      ContentsOfParsed(Parse(boundary, EncodedForm(boundary, parts)).value, parts, 0);
      forall k | 0 <= k < |parts| ensures WellFormed(boundary, parts[k]) {
        RecoveredMeansClean(boundary, parts, k);
        PartComesBack(parts, 0, k);
        ContentParsesExactly(parts[k]);
      }
    }
  }

  lemma {:induction false} PartComesBack(parts: seq<Part>, i: nat, k: nat)
    requires i <= k < |parts| && ParseContents(Contents(parts, i)) == Some(parts[i..])
    ensures ParseContent(Content(parts[k])) == Some(parts[k])
    decreases k - i
  {
    assert parts[i..][0] == parts[i] && parts[i..][1..] == parts[i + 1..];
    assert Contents(parts, i)[1..] == Contents(parts, i + 1);
    if i < k {
      PartComesBack(parts, i + 1, k);
    }
  }

  /** Two well-formed forms that are encoded alike are the same. */
  lemma {:induction false} EncodingIsUnique(boundary: Bytes, parts: seq<Part>, others: seq<Part>)
    requires ValidBoundary(boundary) && parts != [] && others != []
    requires EncodedForm(boundary, parts) == EncodedForm(boundary, others)
    requires forall k | 0 <= k < |parts| :: WellFormed(boundary, parts[k])
    requires forall k | 0 <= k < |others| :: WellFormed(boundary, others[k])
    ensures parts == others
  {
    FormComesBack(boundary, parts);
    FormComesBack(boundary, others);
  }

  /** Without parts nothing is written, not even a closing delimiter, and nothing can be parsed. */
  lemma {:induction false} NoParts(boundary: Bytes)
    ensures EncodedForm(boundary, []) == [] && Parse(boundary, []).None?
  {
    var s, d := CRLF + [], Delimiter(boundary);
    assert s == CRLF && CRLF[1..] == [LF] && [LF][1..] == [];
    assert |d| >= 4;
    assert Find([], d).None?;
    assert Find([LF], d).None?;
    assert Find(s, d).None?;
    assert Split(s, d)[1..] == [];
  }
}
