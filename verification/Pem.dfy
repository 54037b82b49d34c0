/** Keys as PEM text: printing, the header/body reader, and the checks on the decoded payload. */
module Pem {
  import opened Common
  import Base64
  import opened TextLines
  import MS = MigrationState

  const CURRENT_KEY_VERSION := 1
  const MAX_SUPPORTED_KEY_VERSION := 1
  const MAX_PAYLOAD_BYTES := 10 * 1024 * 1024
  const LINE_WIDTH := 64

  datatype Kind = Public | Secret

  datatype Key = Key(kind: Kind, raw: Bytes, algorithm: string, state: MS.MState)

  datatype Error =
    | MissingMarkers | EmptyBody | BadBase64 | WrongLabel | CborFailed
    | NotAMap | NoVersion | VersionTooOld | VersionTooNew | NoAlgorithm | AlgorithmNotText
    | NoKey | KeyNotBytes | NoKeyType | WrongKeyType | InvalidKey

  /** A decoded CBOR item, as far as the reader tells items apart. */
  datatype Item = Int(i: int) | Bool(b: bool) | Text(t: string) | Blob(bytes: Bytes) | Other

  datatype Document = Map(entries: map<string, Item>) | NotMap

  datatype Codec = Codec(dumps: map<string, Item> -> Bytes, loads: Bytes -> Option<Document>)

  ghost predicate RoundTrips(codec: Codec) {
    forall m :: codec.loads(codec.dumps(m)) == Some(Map(m))
  }

  /** The loader refuses more than 10 MB before it decodes. */
  function Loads(codec: Codec, raw: Bytes): Option<Document> {
    if |raw| > MAX_PAYLOAD_BYTES then None else codec.loads(raw)
  }

  function StateName(s: MS.MState): string {
    match s
    case ClassicalOnly => "classical_only"
    case HybridTransition => "hybrid_transition"
    case PqcPreferred => "pqc_preferred"
    case PqcOnly => "pqc_only"
  }

  /** An unknown or missing state reads as the hybrid transition. */
  function StateOf(item: Option<Item>): MS.MState {
    match item
    case Some(Text("classical_only")) => MS.ClassicalOnly
    case Some(Text("pqc_preferred")) => MS.PqcPreferred
    case Some(Text("pqc_only")) => MS.PqcOnly
    case _ => MS.HybridTransition
  }

  function KindName(kind: Kind): string {
    if kind == Public then "pub" else "sec"
  }

  function Label(kind: Kind): string {
    if kind == Public then "QUANTUM SAFE PUBLIC KEY" else "QUANTUM SAFE SECRET KEY"
  }

  function BeginLine(kind: Kind): string {
    "-----BEGIN " + Label(kind) + "-----"
  }

  function EndLine(kind: Kind): string {
    "-----END " + Label(kind) + "-----"
  }

  /** FIPS 203, 204 and 205 public key sizes, and X-Wing. */
  const KNOWN_PUBLIC_KEY_SIZES: map<string, nat> := map[
    "ML-KEM-512" := 800, "ML-KEM-768" := 1184, "ML-KEM-1024" := 1568,
    "ML-DSA-44" := 1312, "ML-DSA-65" := 1952, "ML-DSA-87" := 2592, "X-Wing" := 1216,
    "SLH-DSA-SHAKE-128s" := 32, "SLH-DSA-SHAKE-128f" := 32, "SLH-DSA-SHA2-128s" := 32, "SLH-DSA-SHA2-128f" := 32,
    "SLH-DSA-SHAKE-192s" := 48, "SLH-DSA-SHAKE-192f" := 48, "SLH-DSA-SHA2-192s" := 48, "SLH-DSA-SHA2-192f" := 48,
    "SLH-DSA-SHAKE-256s" := 64, "SLH-DSA-SHAKE-256f" := 64, "SLH-DSA-SHA2-256s" := 64, "SLH-DSA-SHA2-256f" := 64]

  predicate WrongSize(raw: Bytes, algorithm: string) {
    '+' !in algorithm && algorithm in KNOWN_PUBLIC_KEY_SIZES && |raw| != KNOWN_PUBLIC_KEY_SIZES[algorithm]
  }

  /** The key constructors; None is their ValueError. */
  function MakeKey(kind: Kind, raw: Bytes, algorithm: string, state: MS.MState): Option<Key> {
    if raw == [] || (kind == Public && WrongSize(raw, algorithm)) then None
    else Some(Key(kind, raw, algorithm, state))
  }

  // ------------------------------------------------------------------ printing

  function Payload(k: Key): map<string, Item> {
    map["v" := Int(CURRENT_KEY_VERSION), "algo" := Text(k.algorithm), "ms" := Text(StateName(k.state)),
        "ktype" := Text(KindName(k.kind)), "key" := Blob(k.raw)]
  }

  function AlgorithmLine(k: Key): string {
    "qs-algo: " + k.algorithm
  }

  function StateLine(k: Key): string {
    "qs-migration: " + StateName(k.state)
  }

  function BodyLines(codec: Codec, k: Key): seq<string> {
    Wrap(Base64.Encode(codec.dumps(Payload(k))), LINE_WIDTH)
  }

  const VERSION_LINE := "qs-version: 1"

  function LinesBefore(k: Key): seq<string> {
    [BeginLine(k.kind), VERSION_LINE]
  }

  function LinesAfter(codec: Codec, k: Key): seq<string> {
    [StateLine(k), ""] + BodyLines(codec, k)
  }

  /** `to_pem`: the markers, three headers, a blank line and the wrapped body, each ended by a line feed. */
  function ToPem(codec: Codec, k: Key): string {
    Unlines(LinesBefore(k) + ([AlgorithmLine(k)] + (LinesAfter(codec, k) + [EndLine(k.kind)])))
  }

  // ------------------------------------------------------------------ reading

  function BlankAt(lines: seq<string>): (n: nat)
    ensures n <= |lines| && "" !in lines[..n]
    ensures n < |lines| ==> lines[n] == ""
  {
    if lines == [] || lines[0] == "" then 0 else 1 + BlankAt(lines[1..])
  }

  function ColonAt(line: string): (n: nat)
    ensures n <= |line| && ':' !in line[..n]
    ensures n < |line| ==> line[n] == ':'
  {
    if line == "" || line[0] == ':' then 0 else 1 + ColonAt(line[1..])
  }

  /** The header lines that hold a colon, a later one winning over an earlier one of the same name. */
  function Headers(lines: seq<string>): map<string, string> {
    if lines == [] then map[] else AddHeader(Headers(lines[..|lines| - 1]), lines[|lines| - 1])
  }

  function AddHeader(headers: map<string, string>, line: string): map<string, string> {
    var colon := ColonAt(line);
    if colon == |line| then headers else headers[Strip(line[..colon]) := Strip(line[colon + 1..])]
  }

  predicate HasMarkers(lines: seq<string>) {
    lines != [] && "-----BEGIN" <= lines[0] && "-----END" <= lines[|lines| - 1]
  }

  /** What stands between the markers. */
  function Inner(lines: seq<string>): seq<string> {
    if |lines| < 2 then [] else lines[1..|lines| - 1]
  }

  /** The body is everything after the first blank line. */
  function Body(inner: seq<string>): seq<string> {
    if BlankAt(inner) == |inner| then [] else inner[BlankAt(inner) + 1..]
  }

  function PemBody(pem: string): Result<(map<string, string>, Bytes), Error> {
    var lines := SplitLines(Strip(pem));
    if !HasMarkers(lines) then Err(MissingMarkers)
    else
      var inner := Inner(lines);
      if Body(inner) == [] then Err(EmptyBody)
      else match Base64.Decode(Concat(Body(inner)))
        case None => Err(BadBase64)
        case Some(raw) => Ok((Headers(inner[..BlankAt(inner)]), raw))
  }

  /** What the pass over the lines has collected from the first `n` of them. */
  predicate Collected(inner: seq<string>, n: nat, inBody: bool, headers: map<string, string>, bodyLines: seq<string>)
    requires n <= |inner|
  {
    var blank := BlankAt(inner);
    && (inBody <==> blank < n)
    && headers == Headers(inner[..if inBody then blank else n])
    && bodyLines == if inBody then inner[blank + 1..n] else []
  }

  /** `_parse_pem_body`: one pass over the lines with a flag that says whether the body has begun. */
  method ParsePemBody(pem: string) returns (r: Result<(map<string, string>, Bytes), Error>)
    ensures r == PemBody(pem)
  {
    var lines := SplitLines(Strip(pem));
    if lines == [] || !("-----BEGIN" <= lines[0]) || !("-----END" <= lines[|lines| - 1]) {
      return Err(MissingMarkers);
    }
    var inner := if |lines| < 2 then [] else lines[1..|lines| - 1];
    var headers: map<string, string> := map[];
    var bodyLines: seq<string> := [];
    var inBody := false;
    for i := 0 to |inner|
      invariant Collected(inner, i, inBody, headers, bodyLines)
    {
      var line := inner[i];
      NextLine(inner, i, inBody, headers, bodyLines);
      if inBody {
        bodyLines := bodyLines + [line];
      } else if line == "" {
        inBody := true;
      } else {
        headers := AddHeader(headers, line);
      }
    }
    AllCollected(inner, inBody, headers, bodyLines);
    if bodyLines == [] {
      return Err(EmptyBody);
    }
    var decoded := Base64.Decode(Concat(bodyLines));
    if decoded.None? {
      return Err(BadBase64);
    }
    return Ok((headers, decoded.value));
  }

  lemma NextLine(inner: seq<string>, i: nat, inBody: bool, headers: map<string, string>, bodyLines: seq<string>)
    requires i < |inner| && Collected(inner, i, inBody, headers, bodyLines)
    ensures inBody ==> Collected(inner, i + 1, true, headers, bodyLines + [inner[i]])
    ensures !inBody && inner[i] == "" ==> Collected(inner, i + 1, true, headers, bodyLines)
    ensures !inBody && inner[i] != "" ==> Collected(inner, i + 1, false, AddHeader(headers, inner[i]), bodyLines)
  {
    assert inner[..i + 1][..i] == inner[..i];
    if !inBody && inner[i] == "" {
      BlankIsFirst(inner, i);
    }
  }

  lemma AllCollected(inner: seq<string>, inBody: bool, headers: map<string, string>, bodyLines: seq<string>)
    requires Collected(inner, |inner|, inBody, headers, bodyLines)
    ensures bodyLines == Body(inner)
    ensures headers == Headers(inner[..BlankAt(inner)])
  {
    var blank := BlankAt(inner);
    if inBody {
      Whole(inner, blank);
      assert bodyLines == inner[blank + 1..];
    } else {
      assert blank == |inner|;
    }
  }

  lemma Whole<T>(s: seq<T>, n: nat)
    requires n <= |s|
    ensures n < |s| ==> s[n + 1..|s|] == s[n + 1..]
  {
  }

  lemma BlankIsFirst(lines: seq<string>, i: nat)
    requires i <= BlankAt(lines) && i < |lines| && lines[i] == ""
    ensures BlankAt(lines) == i
  {
    assert forall k :: 0 <= k < BlankAt(lines) ==> lines[..BlankAt(lines)][k] == lines[k];
  }

  /** `_parse_cbor_dict`: None when the document is a key payload of this kind. */
  function PayloadError(d: Document, kind: Kind): Option<Error> {
    match d
    case NotMap => Some(NotAMap)
    case Map(m) =>
      if "v" !in m || !m["v"].Int? then Some(NoVersion)
      else if m["v"].i < 1 then Some(VersionTooOld)
      else if m["v"].i > MAX_SUPPORTED_KEY_VERSION then Some(VersionTooNew)
      else if "algo" !in m then Some(NoAlgorithm)
      else if !m["algo"].Text? then Some(AlgorithmNotText)
      else if "key" !in m then Some(NoKey)
      else if !m["key"].Blob? then Some(KeyNotBytes)
      else if "ktype" !in m then Some(NoKeyType)
      else if m["ktype"] != Text(KindName(kind)) then Some(WrongKeyType)
      else None
  }

  function Other(kind: Kind): Kind {
    if kind == Public then Secret else Public
  }

  /** `PublicKey.from_pem` and `SecretKey.from_pem`: the label, then the payload; the headers are not used. */
  function FromPem(codec: Codec, kind: Kind, pem: string): Result<Key, Error> {
    match PemBody(pem)
    case Err(e) => Err(e)
    case Ok((_, raw)) =>
      if Contains(SplitLines(Strip(pem))[0], Label(Other(kind))) then Err(WrongLabel)
      else match Loads(codec, raw)
        case None => Err(CborFailed)
        case Some(d) => FromDocument(d, kind)
  }

  function FromDocument(d: Document, kind: Kind): Result<Key, Error> {
    match PayloadError(d, kind)
    case Some(e) => Err(e)
    case None =>
      var m := d.entries;
      match MakeKey(kind, m["key"].bytes, m["algo"].t, StateOf(if "ms" in m then Some(m["ms"]) else None))
      case None => Err(InvalidKey)
      case Some(k) => Ok(k)
  }

  // ------------------------------------------------------------------ reading undoes printing

  /** No line of the algorithm's header is blank, so the body begins where it was printed. */
  predicate NoBlankLine(algorithm: string) {
    "" !in SplitLines("qs-algo: " + algorithm + "\n")
  }

  /** An algorithm name without line breaks always will do. */
  lemma OneLineHasNoBlank(algorithm: string)
    requires OneLine(algorithm)
    ensures NoBlankLine(algorithm)
  {
    var line := "qs-algo: " + algorithm;
    SplitLineThenRest(line, "");
    assert line + "\n" + "" == line + "\n";
    assert line[0] == 'q';
  }

  lemma LabelIsALine(kind: Kind)
    ensures OneLine(Label(kind))
  {
  }

  lemma BeginIsALine(kind: Kind)
    ensures OneLine(BeginLine(kind)) && "-----BEGIN" <= BeginLine(kind) && BeginLine(kind)[0] == '-'
  {
    LabelIsALine(kind);
    OneLineConcat("-----BEGIN ", Label(kind));
    OneLineConcat("-----BEGIN " + Label(kind), "-----");
  }

  lemma EndIsALine(kind: Kind)
    ensures OneLine(EndLine(kind)) && "-----END" <= EndLine(kind) && EndLine(kind)[|EndLine(kind)| - 1] == '-'
  {
    LabelIsALine(kind);
    OneLineConcat("-----END ", Label(kind));
    OneLineConcat("-----END " + Label(kind), "-----");
  }

  lemma HeadersAreLines(k: Key)
    ensures OneLine(VERSION_LINE) && OneLine(StateLine(k)) && StateLine(k) != ""
  {
    assert OneLine(StateName(k.state));
  }

  lemma EncodedIsOneLine(data: Bytes)
    ensures OneLine(Base64.Encode(data))
  {
    Base64.DigitsAreDigits(data);
    forall i | 0 <= i < |Base64.Encode(data)|
      ensures !IsLineBreak(Base64.Encode(data)[i])
    {
      assert i < |Base64.Digits(data)| ==> Base64.IsDigit(Base64.Digits(data)[i]);
    }
  }

  /** The text without its final line feed. */
  function Stripped(codec: Codec, k: Key): string {
    Unlines(LinesBefore(k)) + (AlgorithmLine(k) + "\n" + (Unlines(LinesAfter(codec, k)) + EndLine(k.kind)))
  }

  lemma PrintedText(codec: Codec, k: Key)
    ensures ToPem(codec, k) == Stripped(codec, k) + "\n"
  {
    var before, after, end := LinesBefore(k), LinesAfter(codec, k), EndLine(k.kind);
    var alg := AlgorithmLine(k);
    UnlinesAppend(before, [alg] + (after + [end]));
    UnlinesAppend([alg], after + [end]);
    UnlinesAppend(after, [end]);
    UnlinesOne(alg);
    UnlinesOne(end);
    Assoc(Unlines(after), end, "\n");
    Assoc(alg + "\n", Unlines(after) + end, "\n");
    Assoc(Unlines(before), alg + "\n" + (Unlines(after) + end), "\n");
  }

  lemma PrintedStrips(codec: Codec, k: Key)
    ensures Strip(ToPem(codec, k)) == Stripped(codec, k)
  {
    var s := Stripped(codec, k);
    PrintedText(codec, k);
    BeginIsALine(k.kind);
    EndIsALine(k.kind);
    var begin, end := BeginLine(k.kind), EndLine(k.kind);
    assert Unlines(LinesBefore(k)) == begin + "\n" + Unlines([VERSION_LINE]);
    assert s[0] == begin[0];
    assert s[|s| - 1] == end[|end| - 1];
    StripFinalLineFeed(s);
  }

  /** The lines the reader sees. */
  lemma PrintedLines(codec: Codec, k: Key)
    ensures SplitLines(Strip(ToPem(codec, k)))
            == LinesBefore(k) + (SplitLines(AlgorithmLine(k) + "\n") + (LinesAfter(codec, k) + [EndLine(k.kind)]))
  {
    var after, end := LinesAfter(codec, k), EndLine(k.kind);
    PrintedStrips(codec, k);
    BeginIsALine(k.kind);
    EndIsALine(k.kind);
    HeadersAreLines(k);
    EncodedIsOneLine(codec.dumps(Payload(k)));
    WrapThenConcat(Base64.Encode(codec.dumps(Payload(k))), LINE_WIDTH);
    SplitUnlines(LinesBefore(k), AlgorithmLine(k) + "\n" + (Unlines(after) + end));
    SplitAtLineFeed(AlgorithmLine(k), Unlines(after) + end);
    SplitUnlines(after, end);
    SplitOneLine(end);
  }

  lemma {:induction false} BlankIsAfter(before: seq<string>, body: seq<string>)
    requires "" !in before
    ensures BlankAt(before + ([""] + body)) == |before|
  {
    if before != [] {
      assert before[0] != "";
      assert (before + ([""] + body))[1..] == before[1..] + ([""] + body);
      BlankIsAfter(before[1..], body);
    }
  }

  lemma BodyAfterBlank(before: seq<string>, body: seq<string>)
    requires "" !in before
    ensures Body(before + ([""] + body)) == body
  {
    BlankIsAfter(before, body);
    assert (before + ([""] + body))[|before| + 1..] == body;
  }

  lemma Regroup<T>(begin: T, version: T, algorithm: seq<T>, state: T, blank: T, body: seq<T>, end: T)
    ensures [begin, version] + (algorithm + (([state, blank] + body) + [end]))
            == [begin] + (([version] + (algorithm + [state])) + ([blank] + body)) + [end]
  {
  }

  lemma InnerIs(first: string, inner: seq<string>, last: string)
    ensures Inner([first] + inner + [last]) == inner
  {
  }

  /** Reading printed text gives back the payload bytes. */
  lemma PrintedBody(codec: Codec, k: Key)
    requires NoBlankLine(k.algorithm)
    ensures PemBody(ToPem(codec, k)).Ok? && PemBody(ToPem(codec, k)).value.1 == codec.dumps(Payload(k))
    ensures SplitLines(Strip(ToPem(codec, k)))[0] == BeginLine(k.kind)
  {
    var body, end := BodyLines(codec, k), EndLine(k.kind);
    var headers := [VERSION_LINE] + (SplitLines(AlgorithmLine(k) + "\n") + [StateLine(k)]);
    var lines := SplitLines(Strip(ToPem(codec, k)));
    PrintedLines(codec, k);
    HeadersAreLines(k);
    BeginIsALine(k.kind);
    EndIsALine(k.kind);
    Regroup(BeginLine(k.kind), VERSION_LINE, SplitLines(AlgorithmLine(k) + "\n"), StateLine(k), "", body, end);
    assert lines[0] == BeginLine(k.kind) && lines[|lines| - 1] == end;
    InnerIs(BeginLine(k.kind), headers + ([""] + body), end);
    BodyAfterBlank(headers, body);
    WrapThenConcat(Base64.Encode(codec.dumps(Payload(k))), LINE_WIDTH);
    Base64.RoundTrip(codec.dumps(Payload(k)));
  }

  lemma HasAtMeans(text: string, needle: string, i: nat, j: nat)
    requires j < |needle|
    ensures HasAt(text, needle, i) ==> text[i + j] == needle[j]
  {
    if HasAt(text, needle, i) {
      assert text[i..i + |needle|][j] == text[i + j];
    }
  }

  lemma LabelsDiffer(kind: Kind)
    ensures !Contains(BeginLine(kind), Label(Other(kind)))
  {
    var text, needle := BeginLine(kind), Label(Other(kind));
    forall i: nat | i <= |text|
      ensures !HasAt(text, needle, i)
    {
      HasAtMeans(text, needle, i, 0);
      HasAtMeans(text, needle, i, 13);
      QuantumBeginsAt11(kind, i);
    }
  }

  lemma QuantumBeginsAt11(kind: Kind, i: nat)
    ensures i + 22 < |BeginLine(kind)| && BeginLine(kind)[i] == 'Q' ==> i == 11
  {
  }

  lemma StateReadsBack(s: MS.MState)
    ensures StateOf(Some(Text(StateName(s)))) == s
  {
  }

  lemma PayloadReadsBack(k: Key)
    requires MakeKey(k.kind, k.raw, k.algorithm, k.state).Some?
    ensures FromDocument(Map(Payload(k)), k.kind) == Ok(k)
  {
    StateReadsBack(k.state);
  }

  /** Parsing undoes printing, for a key of any length that the constructor accepts: the same algorithm, bytes
      and migration state come back exactly when the payload is within the loader's 10 MB limit. */
  lemma ReadUndoesPrint(codec: Codec, k: Key)
    requires RoundTrips(codec) && NoBlankLine(k.algorithm)
    requires MakeKey(k.kind, k.raw, k.algorithm, k.state).Some?
    ensures FromPem(codec, k.kind, ToPem(codec, k)) == Ok(k) <==> |codec.dumps(Payload(k))| <= MAX_PAYLOAD_BYTES
    ensures |codec.dumps(Payload(k))| > MAX_PAYLOAD_BYTES ==> FromPem(codec, k.kind, ToPem(codec, k)) == Err(CborFailed)
  {
    PrintedBody(codec, k);
    LabelsDiffer(k.kind);
    PayloadReadsBack(k);
    var payload := codec.dumps(Payload(k));
    assert codec.loads(payload) == Some(Map(Payload(k)));
    assert FromPem(codec, k.kind, ToPem(codec, k)) == if |payload| > MAX_PAYLOAD_BYTES then Err(CborFailed) else Ok(k);
  }

  lemma OwnLabel(kind: Kind)
    ensures Contains(BeginLine(kind), Label(kind))
  {
    assert HasAt(BeginLine(kind), Label(kind), 11);
  }

  /** A printed key is never read as the other kind, whatever its algorithm name is. */
  lemma KindsDoNotMix(codec: Codec, k: Key, kind: Kind)
    requires kind != k.kind
    ensures FromPem(codec, kind, ToPem(codec, k)).Err?
  {
    PrintedLines(codec, k);
    assert SplitLines(Strip(ToPem(codec, k)))[0] == BeginLine(k.kind);
    OwnLabel(k.kind);
    assert Other(kind) == k.kind;
  }

  // ------------------------------------------------------------------ what a reader accepts

  /** The document is the key's map: version 1, algorithm and key of the right types, the tag of the key's own kind,
      and its migration state, where an unknown or missing one means the hybrid transition. */
  ghost predicate Describes(d: Document, k: Key) {
    && d.Map?
    && var m := d.entries;
    && {"v", "algo", "key", "ktype"} <= m.Keys
    && m["v"] == Int(1) && m["algo"] == Text(k.algorithm) && m["key"] == Blob(k.raw)
    && m["ktype"] == Text(if k.kind == Public then "pub" else "sec")
    && if "ms" in m && exists s :: m["ms"] == Text(StateName(s)) then m["ms"] == Text(StateName(k.state))
       else k.state == MS.HybridTransition
  }

  lemma StateOfExactly(item: Option<Item>, state: MS.MState)
    ensures StateOf(item) == state
            <==>
            if item.Some? && exists s :: item.value == Text(StateName(s)) then item.value == Text(StateName(state))
            else state == MS.HybridTransition
  {
    if item.Some? {
      if s :| item.value == Text(StateName(s)) {
        StateReadsBack(s);
      } else {
        assert StateName(MS.ClassicalOnly) == "classical_only" && StateName(MS.PqcPreferred) == "pqc_preferred";
        assert StateName(MS.PqcOnly) == "pqc_only";
      }
    }
  }

  /** No name in the table is a hybrid's. */
  lemma WrongSizeMeans(raw: Bytes, algorithm: string)
    ensures WrongSize(raw, algorithm)
            <==> algorithm in KNOWN_PUBLIC_KEY_SIZES && |raw| != KNOWN_PUBLIC_KEY_SIZES[algorithm]
  {
    if '+' in algorithm {
      PlusIsNotInTheTable(algorithm);
    }
  }

  lemma PlusIsNotInTheTable(algorithm: string)
    requires '+' in algorithm
    ensures algorithm !in KNOWN_PUBLIC_KEY_SIZES
  {
  }

  /** A document is read as a key exactly when it describes that key, the kind is the one asked for, and the key
      bytes are not empty and have the algorithm's size where a public key's is known. */
  lemma DocumentIsReadExactly(d: Document, kind: Kind, k: Key)
    ensures FromDocument(d, kind) == Ok(k)
            <==>
            && k.kind == kind && Describes(d, k) && k.raw != []
            && (kind == Public && k.algorithm in KNOWN_PUBLIC_KEY_SIZES ==>
                  |k.raw| == KNOWN_PUBLIC_KEY_SIZES[k.algorithm])
  {
    WrongSizeMeans(k.raw, k.algorithm);
    if d.Map? {
      StateOfExactly(if "ms" in d.entries then Some(d.entries["ms"]) else None, k.state);
    }
  }

  /** Which error a document that is no key of this kind is refused with: the first of these that is wrong. */
  lemma DocumentFailsHow(d: Document, kind: Kind)
    ensures var r := FromDocument(d, kind);
            && (r == Err(NotAMap) <==> d.NotMap?)
            && (d.Map? ==>
                  var m := d.entries;
                  && (r == Err(NoVersion) <==> "v" !in m || !m["v"].Int?)
                  && (r == Err(VersionTooOld) <==> "v" in m && m["v"].Int? && m["v"].i < 1)
                  && (r == Err(VersionTooNew) <==> "v" in m && m["v"].Int? && m["v"].i > 1)
                  && ("v" in m && m["v"] == Int(1) ==>
                        && (r == Err(NoAlgorithm) <==> "algo" !in m)
                        && (r == Err(AlgorithmNotText) <==> "algo" in m && !m["algo"].Text?)
                        && ("algo" in m && m["algo"].Text? ==>
                              && (r == Err(NoKey) <==> "key" !in m)
                              && (r == Err(KeyNotBytes) <==> "key" in m && !m["key"].Blob?)
                              && ("key" in m && m["key"].Blob? ==>
                                    && (r == Err(NoKeyType) <==> "ktype" !in m)
                                    && (r == Err(WrongKeyType) <==>
                                          && "ktype" in m
                                          && m["ktype"] != Text(if kind == Public then "pub" else "sec"))
                                    && (r.Err? && "ktype" in m
                                        && m["ktype"] == Text(if kind == Public then "pub" else "sec") ==>
                                          r == Err(InvalidKey))))))
  {
  }

  /** Which error a text without a key's bytes is refused with: a marker is missing, no line follows a blank one
      between them, or the body is no base64. */
  lemma TextFailsHow(pem: string)
    ensures var lines, r := SplitLines(Strip(pem)), PemBody(pem);
            var marked := lines != [] && "-----BEGIN" <= lines[0] && "-----END" <= lines[|lines| - 1];
            && (r == Err(MissingMarkers) <==> !marked)
            && (r == Err(EmptyBody) <==> marked && forall i :: 0 < i < |lines| - 2 ==> lines[i] != "")
            && (r.Err? ==> r.error in {MissingMarkers, EmptyBody, BadBase64})
  {
    var lines := SplitLines(Strip(pem));
    if HasMarkers(lines) {
      BodyIsEmptyExactlyWhen(Inner(lines));
      if |lines| >= 2 {
        forall i | 0 < i < |lines| - 1
          ensures Inner(lines)[i - 1] == lines[i]
        {
        }
      }
    }
  }

  lemma BodyIsEmptyExactlyWhen(inner: seq<string>)
    ensures Body(inner) == [] <==> forall i :: 0 <= i < |inner| - 1 ==> inner[i] != ""
  {
    var n := BlankAt(inner);
    assert forall i :: 0 <= i < n ==> inner[..n][i] == inner[i];
  }

  lemma BodyNeedsMarkers(pem: string)
    requires PemBody(pem).Ok?
    ensures var lines := SplitLines(Strip(pem));
            lines != [] && "-----BEGIN" <= lines[0] && "-----END" <= lines[|lines| - 1]
  {
  }

  lemma LabelThenPayload(codec: Codec, kind: Kind, pem: string)
    requires PemBody(pem).Ok?
    ensures FromPem(codec, kind, pem) ==
            if Contains(SplitLines(Strip(pem))[0], Label(Other(kind))) then Err(WrongLabel)
            else match Loads(codec, PemBody(pem).value.1)
              case None => Err(CborFailed)
              case Some(d) => FromDocument(d, kind)
  {
  }

  /** A text is read as a key exactly when it has the markers, its first line does not carry the other kind's label,
      and its body is the base64 of at most 10 MB that decode to a document read as that key. */
  lemma TextIsReadExactly(codec: Codec, kind: Kind, pem: string, k: Key)
    ensures FromPem(codec, kind, pem) == Ok(k)
            <==>
            var lines := SplitLines(Strip(pem));
            && lines != [] && "-----BEGIN" <= lines[0] && "-----END" <= lines[|lines| - 1]
            && !Contains(lines[0], if kind == Public then "QUANTUM SAFE SECRET KEY" else "QUANTUM SAFE PUBLIC KEY")
            && PemBody(pem).Ok?
            && var raw := PemBody(pem).value.1;
               |raw| <= 10485760 && codec.loads(raw).Some? && FromDocument(codec.loads(raw).value, kind) == Ok(k)
  {
    assert Label(Other(kind)) == if kind == Public then "QUANTUM SAFE SECRET KEY" else "QUANTUM SAFE PUBLIC KEY";
    if PemBody(pem).Ok? {
      BodyNeedsMarkers(pem);
      LabelThenPayload(codec, kind, pem);
    }
  }

  /** The tag in the payload decides, whatever the markers say: a text that carries the payload of `k` is read as `k`
      or not at all, so a secret key whose markers are relabelled is no public key. */
  lemma RelabelledIsRefused(codec: Codec, k: Key, kind: Kind, pem: string)
    requires RoundTrips(codec) && PemBody(pem).Ok? && PemBody(pem).value.1 == codec.dumps(Payload(k))
    requires FromPem(codec, kind, pem).Ok?
    ensures kind == k.kind && FromPem(codec, kind, pem).value == k
  {
    var read := FromPem(codec, kind, pem).value;
    TextIsReadExactly(codec, kind, pem, read);
    assert codec.loads(codec.dumps(Payload(k))) == Some(Map(Payload(k)));
    DocumentIsReadExactly(Map(Payload(k)), kind, read);
    StateReadsBack(k.state);
    StateOfExactly(Some(Text(StateName(k.state))), read.state);
  }

  /** The body is printed in lines of 64 characters, the last one shorter. */
  lemma BodyLinesAreFull(codec: Codec, k: Key)
    ensures Concat(BodyLines(codec, k)) == Base64.Encode(codec.dumps(Payload(k)))
    ensures forall i :: 0 <= i < |BodyLines(codec, k)| ==>
              && |BodyLines(codec, k)[i]| <= 64
              && (i < |BodyLines(codec, k)| - 1 ==> |BodyLines(codec, k)[i]| == 64)
  {
    WrapThenConcat(Base64.Encode(codec.dumps(Payload(k))), LINE_WIDTH);
  }

  // ------------------------------------------------------------------ the headers

  lemma ColonIs(line: string, n: nat)
    requires n < |line| && line[n] == ':' && ':' !in line[..n]
    ensures ColonAt(line) == n
  {
    assert forall i :: 0 <= i < n ==> line[..n][i] == line[i];
    assert forall i :: 0 <= i < ColonAt(line) ==> line[..ColonAt(line)][i] == line[i];
  }

  lemma VisibleStrips(s: string)
    requires s != "" && !IsSpace(s[0]) && !IsSpace(s[|s| - 1])
    ensures Strip(s) == s
  {
  }

  lemma BlankThenStrips(s: string)
    ensures Strip(" " + s) == Strip(s)
  {
    var t := " " + s;
    assert t[0] == ' ' && IsSpace(' ') && t[1..] == s;
    assert StripLeft(t) == StripLeft(s);
  }

  /** A header line is read as its name and its stripped value. */
  lemma HeaderReads(headers: map<string, string>, name: string, value: string)
    requires name != "" && ':' !in name && !IsSpace(name[0]) && !IsSpace(name[|name| - 1])
    ensures AddHeader(headers, name + ": " + value) == headers[name := Strip(value)]
  {
    var line := name + ": " + value;
    var colon := |name|;
    var left, right := line[..colon], line[colon + 1..];
    assert left == name && line[colon] == ':';
    assert right == " " + value;
    ColonIs(line, colon);
    VisibleStrips(name);
    BlankThenStrips(value);
    assert Strip(left) == name;
    assert Strip(right) == Strip(value);
    assert AddHeader(headers, line) == headers[Strip(left) := Strip(right)];
    assert headers[Strip(left) := Strip(right)] == headers[name := Strip(value)];
    assert AddHeader(headers, line) == AddHeader(headers, name + ": " + value);
  }

  lemma ThreeHeaders(a: string, b: string, c: string)
    ensures Headers([a, b, c]) == AddHeader(AddHeader(AddHeader(map[], a), b), c)
  {
    assert [a, b, c][..2] == [a, b] && [a, b][..1] == [a] && [a][..0] == [];
    assert Headers([]) == map[];
    assert Headers([a]) == AddHeader(Headers([]), a);
    assert Headers([a, b]) == AddHeader(Headers([a]), b);
    assert Headers([a, b, c]) == AddHeader(Headers([a, b]), c);
  }

  lemma AlgorithmIsOneLine(k: Key)
    requires OneLine(k.algorithm)
    ensures SplitLines(AlgorithmLine(k) + "\n") == [AlgorithmLine(k)]
  {
    var line := AlgorithmLine(k);
    OneLineConcat("qs-algo: ", k.algorithm);
    SplitLineThenRest(line, "");
    assert line + "\n" + "" == line + "\n" && SplitLines("") == [];
  }

  lemma ThreeThenRest<T>(begin: T, a: T, b: T, c: T, blank: T, body: seq<T>, end: T)
    ensures [begin, a] + ([b] + (([c, blank] + body) + [end])) == [begin] + ([a, b, c] + ([blank] + body)) + [end]
  {
  }

  lemma PrintedInner(codec: Codec, k: Key)
    requires OneLine(k.algorithm)
    ensures Inner(SplitLines(Strip(ToPem(codec, k))))
            == [VERSION_LINE, AlgorithmLine(k), StateLine(k)] + ([""] + BodyLines(codec, k))
  {
    var begin, end, body := BeginLine(k.kind), EndLine(k.kind), BodyLines(codec, k);
    var line, state := AlgorithmLine(k), StateLine(k);
    PrintedLines(codec, k);
    AlgorithmIsOneLine(k);
    ThreeThenRest(begin, VERSION_LINE, line, state, "", body, end);
    InnerIs(begin, [VERSION_LINE, line, state] + ([""] + body), end);
  }

  lemma OneDigitStrips(value: string)
    requires |value| == 1 && '0' <= value[0] <= '9'
    ensures Strip(value) == value
  {
    VisibleStrips(value);
  }

  lemma VersionHeader(headers: map<string, string>)
    ensures AddHeader(headers, VERSION_LINE) == headers["qs-version" := "1"]
  {
    var name, value := "qs-version", "1";
    assert VERSION_LINE == name + ": " + value;
    HeaderReads(headers, name, value);
    OneDigitStrips(value);
  }

  lemma AlgorithmHeader(headers: map<string, string>, k: Key)
    ensures AddHeader(headers, AlgorithmLine(k)) == headers["qs-algo" := Strip(k.algorithm)]
  {
    var name, value := "qs-algo", k.algorithm;
    assert AlgorithmLine(k) == name + ": " + value;
    HeaderReads(headers, name, value);
  }

  lemma NameIsVisible(state: MS.MState)
    ensures Strip(StateName(state)) == StateName(state)
  {
    var name := StateName(state);
    assert name[0] in {'c', 'h', 'p'} && name[|name| - 1] in {'y', 'n', 'd'};
    VisibleStrips(name);
  }

  lemma StateHeader(headers: map<string, string>, k: Key)
    ensures AddHeader(headers, StateLine(k)) == headers["qs-migration" := StateName(k.state)]
  {
    var name, value := "qs-migration", StateName(k.state);
    assert StateLine(k) == name + ": " + value;
    HeaderReads(headers, name, value);
    NameIsVisible(k.state);
  }

  lemma HeadersOfKey(k: Key)
    ensures Headers([VERSION_LINE, AlgorithmLine(k), StateLine(k)])
            == map[]["qs-version" := "1"]["qs-algo" := Strip(k.algorithm)]["qs-migration" := StateName(k.state)]
  {
    ThreeHeaders(VERSION_LINE, AlgorithmLine(k), StateLine(k));
    VersionHeader(map[]);
    AlgorithmHeader(map[]["qs-version" := "1"], k);
    StateHeader(map[]["qs-version" := "1"]["qs-algo" := Strip(k.algorithm)], k);
  }

  /** The headers of printed text are the version, the algorithm and the migration state. */
  lemma PrintedHeaders(codec: Codec, k: Key)
    requires OneLine(k.algorithm)
    ensures PemBody(ToPem(codec, k)).Ok?
    ensures PemBody(ToPem(codec, k)).value.0
            == map["qs-version" := "1", "qs-algo" := Strip(k.algorithm), "qs-migration" := StateName(k.state)]
  {
    OneLineHasNoBlank(k.algorithm);
    PrintedBody(codec, k);
    PrintedInner(codec, k);
    HeadersAreLines(k);
    var headers := [VERSION_LINE, AlgorithmLine(k), StateLine(k)];
    BlankIsAfter(headers, BodyLines(codec, k));
    assert (headers + ([""] + BodyLines(codec, k)))[..3] == headers;
    HeadersOfKey(k);
  }
}
