/** Ranged reads: `read_bytes` (with its inner `get_bytes_range`),
    `read_bytes_range` and `read_block`.

    A read resolves a Python-style window `[start, stop)`, where negative
    bounds count from the end of the resource, into an HTTP byte-range-spec
    (section 2.1 of RFC 7233: `first-last` inclusive, or `first-` open).
    Negative bounds need the resource's length, which a probe request
    `Range: bytes=-1` (a suffix-byte-range-spec) reports; that length is an
    input here. At most two requests are made: the optional probe and one
    data request. */
module ByteRanges {
  import opened Prelude
  import opened Text
  import opened Responses
  import Urls

  /** What `get_bytes_range` settles on before the data request. */
  datatype Resolution =
    /** the window is empty: no data request, empty bytes */
    | NoRange
    /** the byte-range-spec `first-last`, or `first-` when `last` is absent */
    | Range(first: nat, last: Option<nat>)
    /** the probe reported no length: `OSError(ESPIPE)` */
    | LengthUnknown
    /** `start >= None`, which Python 3 refuses with `TypeError` */
    | Incomparable

  /** `start < 0 or (stop and stop < 0)`: a bound counts from the end. */
  predicate NeedsProbe(start: int, stop: Option<int>) {
    start < 0 || (stop.Some? && stop.value != 0 && stop.value < 0)
  }

  /** `get_bytes_range(start, stop)` with `length` standing for what the probe
      reports. */
  function Resolve(start: int, stop: Option<int>, length: Option<nat>): (r: Resolution)
    ensures r.LengthUnknown? <==> NeedsProbe(start, stop) && length.None?
    ensures r.Incomparable? <==> !NeedsProbe(start, stop) && stop.None?
    ensures r.Range? && r.last.Some? ==> r.first <= r.last.value
    ensures r.Range? && r.last.None? ==> NeedsProbe(start, stop) && stop.None?
    ensures !NeedsProbe(start, stop) && stop.Some? ==>
              (r.NoRange? <==> start >= stop.value)
              && (r.Range? ==> r.first == start && r.last.value + 1 - r.first == stop.value - start)
    ensures NeedsProbe(start, stop) && length.Some? && r.Range? ==>
              r.first == (if start < 0 then Max(0, start + length.value) else start)
    ensures NeedsProbe(start, stop) && length.Some? && stop.None? ==>
              r == Range(if start < 0 then Max(0, start + length.value) else start, None)
    ensures NeedsProbe(start, stop) && length.Some? && stop.Some? ==>
              var first := if start < 0 then Max(0, start + length.value) else start;
              var end := if stop.value < 0 then stop.value + length.value else stop.value;
              (r.NoRange? <==> first >= end) && (r.Range? ==> r.last == Some(end - 1))
  {
    if NeedsProbe(start, stop) then
      if length.None? then LengthUnknown
      else
        var n := length.value;
        var s := if start < 0 then start + n else start;
        var first: nat := if s < 0 then 0 else s;
        if stop.None? then Range(first, None)
        else
          var e := if stop.value < 0 then stop.value + n else stop.value;
          if first >= e then NoRange else Range(first, Some(e - 1))
    else if stop.None? then Incomparable
    else if start >= stop.value then NoRange
    else Range(start, Some(stop.value - 1))
  }

  /** Without a probe the reported length is never looked at. */
  lemma ResolveIgnoresLengthWithoutProbe(start: int, stop: Option<int>, a: Option<nat>, b: Option<nat>)
    requires !NeedsProbe(start, stop)
    ensures Resolve(start, stop, a) == Resolve(start, stop, b)
  {
  }

  /** `stop == 0` is falsy in Python, but the guard's outcome is the same as
      the plain test `stop < 0`: a zero stop is an absolute bound. */
  lemma ZeroStopIsAbsolute(start: int, stop: Option<int>)
    ensures NeedsProbe(start, stop) <==> start < 0 || (stop.Some? && stop.value < 0)
    ensures start >= 0 && stop == Some(0) ==> Resolve(start, stop, None) == NoRange
  {
  }

  // ---------------------------------------------------------------------
  // The text of a byte-range-spec

  /** `f"{first}-{last}"` or `f"{first}-"` */
  function RangeText(first: nat, last: Option<nat>): (t: string)
    ensures |t| > 0 && IsDigit(t[0])
  {
    NatToString(first) + "-" + (if last.Some? then NatToString(last.value) else "")
  }

  /** Reads `first-last` or `first-` back. */
  function ParseRange(t: string): Option<(nat, Option<nat>)> {
    match IndexOf(t, '-')
    case None => None
    case Some(i) =>
      match ParseNat(t[..i])
      case None => None
      case Some(f) =>
        if i + 1 == |t| then Some((f, None))
        else match ParseNat(t[i + 1..])
          case None => None
          case Some(l) => Some((f, Some(l)))
  }

  lemma ParseRangeText(first: nat, last: Option<nat>)
    ensures ParseRange(RangeText(first, last)) == Some((first, last))
  {
    var a := NatToString(first);
    var b := if last.Some? then NatToString(last.value) else "";
    var t := RangeText(first, last);
    assert '-' !in a;
    IndexOfAfter(a, '-', b);
    assert t[..|a|] == a;
    assert t[|a| + 1..] == b;
    ParseNatOfNatToString(first);
    if last.Some? {
      ParseNatOfNatToString(last.value);
    }
  }

  // ---------------------------------------------------------------------
  // Requests

  /** A request as the transport receives it. */
  datatype Request = Request(verb: string, url: string, headers: Headers)

  /** `request`'s default method. */
  const DefaultVerb: string := "POST"

  /** The method of both requests of a read: the caller's `method` keyword,
      passed on to `request` with the other keywords, else `request`'s
      default. */
  function Verb(verbArg: Option<string>): (v: string)
    ensures verbArg.None? ==> v == DefaultVerb
    ensures verbArg.Some? ==> v == verbArg.value
  {
    match verbArg
    case None => DefaultVerb
    case Some(m) => m
  }

  /** The requests a read makes, in order, and what it returns or raises. */
  datatype Exchange = Exchange(requests: seq<Request>, outcome: Result<seq<byte>, Failure>)

  const ProbeRange: string := "bytes=-1"

  const LengthUnknownText: string := "can't determine content length"

  /** `{**headers, "Accept-Encoding": "identity", "Range": range}`: the
      caller's headers, with those two overriding. */
  function RangeHeaders(caller: Headers, range: string): (h: Headers)
    ensures h.Keys == caller.Keys + {"Accept-Encoding", "Range"}
    ensures h["Range"] == range && h["Accept-Encoding"] == "identity"
    ensures forall k :: k in caller && k != "Range" && k != "Accept-Encoding" ==> h[k] == caller[k]
  {
    caller["Accept-Encoding" := "identity"]["Range" := range]
  }

  /** The header value of a data request. */
  function DataRange(first: nat, last: Option<nat>): (v: string)
    ensures v != ProbeRange
  {
    var v := "bytes=" + RangeText(first, last);
    assert v[6] != ProbeRange[6];
    v
  }

  /** The requests of one read once its window is resolved: the probe when
      one was made, then a data request for a range. `fetch` stands for the
      body the transport returns for a request. */
  function Perform(origin: string, url: string, verbArg: Option<string>, headers: Headers, probed: bool,
                   r: Resolution, fetch: Request -> seq<byte>): (x: Exchange)
  {
    var target := Urls.RequestUrl(origin, url);
    var probe := if probed then [Request(Verb(verbArg), target, RangeHeaders(headers, ProbeRange))] else [];
    match r
    case LengthUnknown => Exchange(probe, Err(Os(OSError, ESPIPE, Message(LengthUnknownText))))
    case Incomparable => Exchange(probe, Err(TypeError))
    case NoRange => Exchange(probe, Ok([]))
    case Range(first, last) =>
      var q := Request(Verb(verbArg), target, RangeHeaders(headers, DataRange(first, last)));
      Exchange(probe + [q], Ok(fetch(q)))
  }

  /** What a read returns or raises, by its resolution. */
  lemma PerformOutcome(origin: string, url: string, verbArg: Option<string>, headers: Headers, probed: bool,
                       r: Resolution, fetch: Request -> seq<byte>)
    ensures Perform(origin, url, verbArg, headers, probed, r, fetch).outcome ==
              match r
              case NoRange => Ok([])
              case Range(first, last) =>
                Ok(fetch(Request(Verb(verbArg), Urls.RequestUrl(origin, url), RangeHeaders(headers, DataRange(first, last)))))
              case LengthUnknown => Err(Os(OSError, ESPIPE, Message(LengthUnknownText)))
              case Incomparable => Err(TypeError)
  {
  }

  /** `read_bytes(url, start, stop, headers=headers)`, with `method=verbArg` when
      `verbArg` is present. */
  function ReadBytes(origin: string, url: string, start: int, stop: Option<int>, verbArg: Option<string>,
                     headers: Headers, length: Option<nat>, fetch: Request -> seq<byte>): (x: Exchange)
    ensures 1 <= |x.requests| <= 2 || (|x.requests| == 0 && !NeedsProbe(start, stop))
    ensures forall i :: 0 <= i < |x.requests| ==>
              x.requests[i].verb == (if verbArg.Some? then verbArg.value else "POST")
              && x.requests[i].url == Urls.RequestUrl(origin, url)
              && "Range" in x.requests[i].headers && "Accept-Encoding" in x.requests[i].headers
              && x.requests[i].headers["Accept-Encoding"] == "identity"
              && x.requests[i].headers == RangeHeaders(headers, x.requests[i].headers["Range"])
    ensures NeedsProbe(start, stop) <==> |x.requests| > 0 && x.requests[0].headers["Range"] == ProbeRange
    ensures x.outcome.Err? <==> (NeedsProbe(start, stop) && length.None?) || (!NeedsProbe(start, stop) && stop.None?)
    ensures x.outcome.Err? ==> |x.requests| == (if NeedsProbe(start, stop) then 1 else 0)
    ensures NeedsProbe(start, stop) && length.None? ==>
              x.outcome == Err(Os(OSError, ESPIPE, Message(LengthUnknownText)))
    ensures !NeedsProbe(start, stop) && stop.None? ==> x.outcome == Err(TypeError)
    ensures var r := Resolve(start, stop, length);
            var probes := if NeedsProbe(start, stop) then 1 else 0;
            (r.NoRange? ==> |x.requests| == probes && x.outcome == Ok([]))
            && (r.Range? ==>
                  |x.requests| == probes + 1
                  && x.requests[probes].headers["Range"] == "bytes=" + RangeText(r.first, r.last)
                  && x.outcome == Ok(fetch(x.requests[probes])))
    ensures x.outcome.Ok? && x.outcome.value != [] ==>
              |x.requests| > 0 && x.outcome.value == fetch(x.requests[|x.requests| - 1])
  {
    Perform(origin, url, verbArg, headers, NeedsProbe(start, stop), Resolve(start, stop, length), fetch)
  }

  /** `read_block(url, size, offset)`: nothing is requested for a non-positive
      size; otherwise the window `[offset, offset + size)` is read. */
  function ReadBlock(origin: string, url: string, size: int, offset: int, verbArg: Option<string>,
                     headers: Headers, length: Option<nat>, fetch: Request -> seq<byte>): (x: Exchange)
    ensures size <= 0 ==> x.requests == [] && x.outcome == Ok([])
    ensures size > 0 ==> x == ReadBytes(origin, url, offset, Some(offset + size), verbArg, headers, length, fetch)
  {
    if size <= 0 then Exchange([], Ok([]))
    else ReadBytes(origin, url, offset, Some(offset + size), verbArg, headers, length, fetch)
  }

  // ---------------------------------------------------------------------
  // What a read returns from a server holding the bytes `F`

  /** A bound of Python's slice `F[start:stop]` made absolute. */
  function Clamp(i: int, n: nat): (c: nat)
    ensures c <= n
  {
    if i < 0 then (if i + n < 0 then 0 else i + n) else if i > n then n else i
  }

  /** Python's `F[start:stop]`. */
  function Slice(F: seq<byte>, start: int, stop: Option<int>): seq<byte> {
    var a := Clamp(start, |F|);
    var b := if stop.None? then |F| else Clamp(stop.value, |F|);
    if a < b then F[a..b] else []
  }

  /** A server holding `F` answering a `Range` header (RFC 7233) whatever
      the request's method: a suffix-byte-range-spec `-n` gives the last `n`
      bytes; `first-last` gives the bytes from `first` to `last`, cut at the
      end; a range starting at or past the end is unsatisfiable (section 4.4)
      and here gives an empty body; a missing or unreadable header, or one with `last < first`,
      is ignored and the whole of `F` is sent. */
  function Serve(F: seq<byte>, h: Headers): seq<byte> {
    if "Range" !in h || !StartsWith(h["Range"], "bytes=") then F
    else
      var spec := h["Range"][6..];
      if |spec| > 0 && spec[0] == '-' then
        match ParseNat(spec[1..])
        case None => F
        case Some(n) => F[|F| - Min(n, |F|)..]
      else
        match ParseRange(spec)
        case None => F
        case Some((first, last)) =>
          if last.Some? && last.value < first then F
          else if first >= |F| then []
          else F[first..if last.None? || last.value >= |F| then |F| else last.value + 1]
  }

  /** The probe asks for the last byte. */
  lemma ProbeAsksForLastByte(F: seq<byte>, caller: Headers)
    requires |F| > 0
    ensures Serve(F, RangeHeaders(caller, ProbeRange)) == [F[|F| - 1]]
  {
    var h := RangeHeaders(caller, ProbeRange);
    assert h["Range"][6..] == "-1";
    assert "-1"[1..] == "1";
    assert ParseNat("1") == Some(1);
  }

  /** A data request for `first-last` is served as that range. */
  lemma ServeDataRange(F: seq<byte>, caller: Headers, first: nat, last: Option<nat>)
    requires last.Some? ==> first <= last.value
    ensures Serve(F, RangeHeaders(caller, DataRange(first, last))) ==
              if first >= |F| then []
              else F[first..if last.None? || last.value >= |F| then |F| else last.value + 1]
  {
    var h := RangeHeaders(caller, DataRange(first, last));
    assert StartsWith(h["Range"], "bytes=");
    assert h["Range"][6..] == RangeText(first, last);
    ParseRangeText(first, last);
  }

  /** Serving the resolved window gives Python's slice. */
  lemma ResolveServesSlice(F: seq<byte>, caller: Headers, start: int, stop: Option<int>)
    ensures var r := Resolve(start, stop, Some(|F|));
            (r.NoRange? ==> Slice(F, start, stop) == [])
            && (r.Range? ==> Serve(F, RangeHeaders(caller, DataRange(r.first, r.last))) == Slice(F, start, stop))
  {
    var r := Resolve(start, stop, Some(|F|));
    if r.Range? {
      ServeDataRange(F, caller, r.first, r.last);
    }
  }

  /** Against a server holding `F`, reporting `|F|` to the probe, `read_bytes`
      returns `F[start:stop]`, except that a non-negative `start` with no
      `stop` raises `TypeError`. */
  lemma ReadBytesReadsSlice(F: seq<byte>, origin: string, url: string, start: int, stop: Option<int>,
                            verbArg: Option<string>, headers: Headers)
    ensures ReadBytes(origin, url, start, stop, verbArg, headers, Some(|F|), (q: Request) => Serve(F, q.headers)).outcome ==
              if !NeedsProbe(start, stop) && stop.None? then Err(TypeError) else Ok(Slice(F, start, stop))
  {
    ResolveServesSlice(F, headers, start, stop);
  }

  /** A server holding `F` that follows section 3.1 of RFC 7233: it
      ignores `Range` on every method other than GET and sends all of `F`. */
  function ServeGetOnly(F: seq<byte>, q: Request): (body: seq<byte>)
    ensures q.verb == "GET" ==> body == Serve(F, q.headers)
    ensures q.verb != "GET" ==> body == F
  {
    if q.verb == "GET" then Serve(F, q.headers) else F
  }

  /** With `method="GET"`, a server following section 3.1 of RFC 7233 also
      gives `F[start:stop]`. */
  lemma GetReadsSlice(F: seq<byte>, origin: string, url: string, start: int, stop: Option<int>,
                      headers: Headers)
    ensures ReadBytes(origin, url, start, stop, Some("GET"), headers, Some(|F|), (q: Request) => ServeGetOnly(F, q)).outcome
              == if !NeedsProbe(start, stop) && stop.None? then Err(TypeError) else Ok(Slice(F, start, stop))
  {
    var verbArg := Some("GET");
    var r := Resolve(start, stop, Some(|F|));
    PerformOutcome(origin, url, verbArg, headers, NeedsProbe(start, stop), r, (q: Request) => ServeGetOnly(F, q));
    PerformOutcome(origin, url, verbArg, headers, NeedsProbe(start, stop), r, (q: Request) => Serve(F, q.headers));
    ReadBytesReadsSlice(F, origin, url, start, stop, verbArg, headers);
  }

  /** Without `method=`, both requests are POSTs (`request`'s default), so a
      server following section 3.1 of RFC 7233 ignores the range and every
      read that reaches the data request returns the whole resource. */
  lemma DefaultReadGetsWholeResource(F: seq<byte>, origin: string, url: string, start: int, stop: Option<int>,
                                     headers: Headers)
    requires Resolve(start, stop, Some(|F|)).Range?
    ensures ReadBytes(origin, url, start, stop, None, headers, Some(|F|), (q: Request) => ServeGetOnly(F, q)).outcome
              == Ok(F)
  {
    var r := Resolve(start, stop, Some(|F|));
    PerformOutcome(origin, url, None, headers, NeedsProbe(start, stop), r, (q: Request) => ServeGetOnly(F, q));
  }

  // ---------------------------------------------------------------------
  // Findings: the default window, and negative block offsets

  /** As written, `read_bytes(url)` (start 0, no stop), and every read from a
      non-negative start to the end, raises before any request. */
  lemma ReadToEndRaises(origin: string, url: string, start: nat, verbArg: Option<string>, headers: Headers,
                        length: Option<nat>, fetch: Request -> seq<byte>)
    ensures ReadBytes(origin, url, start, None, verbArg, headers, length, fetch) == Exchange([], Err(TypeError))
  {
  }

  /** `get_bytes_range` with the open window `f"{start}-"` for a
      non-negative start and no stop. */
  function ResolveIntended(start: int, stop: Option<int>, length: Option<nat>): (r: Resolution)
    ensures !r.Incomparable?
    ensures start >= 0 && stop.None? ==> r == Range(start, None)
  {
    if start >= 0 && stop.None? then Range(start, None) else Resolve(start, stop, length)
  }

  /** `read_bytes` with the open window fixed. */
  function ReadBytesIntended(origin: string, url: string, start: int, stop: Option<int>, verbArg: Option<string>,
                             headers: Headers, length: Option<nat>, fetch: Request -> seq<byte>): Exchange
  {
    Perform(origin, url, verbArg, headers, NeedsProbe(start, stop), ResolveIntended(start, stop, length), fetch)
  }

  /** With the fix, every window reads Python's slice. */
  lemma ReadBytesIntendedReadsSlice(F: seq<byte>, origin: string, url: string, start: int, stop: Option<int>,
                                    verbArg: Option<string>, headers: Headers)
    ensures ReadBytesIntended(origin, url, start, stop, verbArg, headers, Some(|F|), (q: Request) => Serve(F, q.headers)).outcome
              == Ok(Slice(F, start, stop))
  {
    ResolveServesSlice(F, headers, start, stop);
    if start >= 0 && stop.None? {
      ServeDataRange(F, headers, start, None);
    }
  }

  /** The block `read_block(url, size, offset)` describes: the window of
      `size` bytes from `offset` (a negative offset counting from the end),
      cut to the bytes the resource has. */
  function Block(F: seq<byte>, size: int, offset: int): seq<byte> {
    var a := if offset < 0 then offset + |F| else offset;
    var lo := Min(Max(a, 0), |F|);
    var hi := Min(a + size, |F|);
    if lo < hi then F[lo..hi] else []
  }

  /** For a non-negative offset, `read_block` reads the block. */
  lemma ReadBlockReadsBlock(F: seq<byte>, origin: string, url: string, size: int, offset: nat,
                            verbArg: Option<string>, headers: Headers)
    ensures ReadBlock(origin, url, size, offset, verbArg, headers, Some(|F|), (q: Request) => Serve(F, q.headers)).outcome
              == Ok(Block(F, size, offset))
  {
    if size > 0 {
      ReadBytesReadsSlice(F, origin, url, offset, Some(offset + size), verbArg, headers);
    }
  }

  /** As written, a negative offset is made absolute but `stop = offset + size`
      is not: the last `size` bytes, asked for with `offset = -size`, come
      back empty. */
  lemma ReadBlockTailIsEmpty(F: seq<byte>, origin: string, url: string, size: int, verbArg: Option<string>,
                              headers: Headers)
    requires 0 < size <= |F|
    ensures ReadBlock(origin, url, size, -size, verbArg, headers, Some(|F|), (q: Request) => Serve(F, q.headers)).outcome
              == Ok([])
    ensures Block(F, size, -size) == F[|F| - size..] != []
  {
  }

  /** As written, a block that ends before the end of the resource
      (`offset + size < 0`) is already read correctly, also when it begins
      before the resource does. */
  lemma ReadBlockReadsBlockEndingInside(F: seq<byte>, origin: string, url: string, size: int, offset: int,
                                        verbArg: Option<string>, headers: Headers)
    requires offset + size < 0
    ensures ReadBlock(origin, url, size, offset, verbArg, headers, Some(|F|), (q: Request) => Serve(F, q.headers)).outcome
              == Ok(Block(F, size, offset))
  {
    if size > 0 {
      ReadBytesReadsSlice(F, origin, url, offset, Some(offset + size), verbArg, headers);
    }
  }

  /** The window of a block, with the stop taken from the absolute offset. */
  function ResolveBlock(size: int, offset: int, length: Option<nat>): (r: Resolution)
    ensures r.LengthUnknown? <==> size > 0 && offset < 0 && length.None?
    ensures r.Range? ==> r.last.Some? && r.first <= r.last.value && r.last.value + 1 - r.first <= size
    ensures size > 0 && offset >= 0 ==> r == Range(offset, Some(offset + size - 1))
    ensures size > 0 && offset < 0 && length.Some? && offset + length.value >= 0 ==>
              r == Range(offset + length.value, Some(offset + length.value + size - 1))
  {
    if size <= 0 then NoRange
    else if offset >= 0 then Range(offset, Some(offset + size - 1))
    else if length.None? then LengthUnknown
    else
      var a := offset + length.value;
      var first: nat := Max(0, a);
      if a + size <= 0 then NoRange else Range(first, Some(a + size - 1))
  }

  /** `read_block` with the stop computed after the offset is made absolute. */
  function ReadBlockIntended(origin: string, url: string, size: int, offset: int, verbArg: Option<string>,
                             headers: Headers, length: Option<nat>, fetch: Request -> seq<byte>): Exchange
  {
    if size <= 0 then Exchange([], Ok([]))
    else Perform(origin, url, verbArg, headers, offset < 0, ResolveBlock(size, offset, length), fetch)
  }

  /** With the fix, every offset reads the block. */
  lemma ReadBlockIntendedReadsBlock(F: seq<byte>, origin: string, url: string, size: int, offset: int,
                                    verbArg: Option<string>, headers: Headers)
    ensures ReadBlockIntended(origin, url, size, offset, verbArg, headers, Some(|F|), (q: Request) => Serve(F, q.headers)).outcome
              == Ok(Block(F, size, offset))
  {
    var fetch := (q: Request) => Serve(F, q.headers);
    var r := ResolveBlock(size, offset, Some(|F|));
    if size > 0 {
      PerformOutcome(origin, url, verbArg, headers, offset < 0, r, fetch);
      if r.Range? {
        var q := Request(Verb(verbArg), Urls.RequestUrl(origin, url), RangeHeaders(headers, DataRange(r.first, r.last)));
        assert fetch(q) == Serve(F, q.headers);
        ServeDataRange(F, headers, r.first, r.last);
        BlockOfRange(F, size, offset);
      } else {
        BlockOfNoRange(F, size, offset);
      }
    }
  }

  /** A block for which `ResolveBlock` asks nothing is empty. */
  lemma BlockOfNoRange(F: seq<byte>, size: int, offset: int)
    requires size > 0 && ResolveBlock(size, offset, Some(|F|)).NoRange?
    ensures Block(F, size, offset) == []
  {
  }

  /** The block as the range `ResolveBlock` asks for. */
  lemma BlockOfRange(F: seq<byte>, size: int, offset: int)
    requires size > 0 && ResolveBlock(size, offset, Some(|F|)).Range?
    ensures var r := ResolveBlock(size, offset, Some(|F|));
            Block(F, size, offset) ==
              if r.first >= |F| then [] else F[r.first..if r.last.value >= |F| then |F| else r.last.value + 1]
  {
  }
}
