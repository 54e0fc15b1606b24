/** src/recording.c: the cursor walk over the token array, and the linear lookup. */
module Recording {
  import opened Bytes
  import opened Text
  import opened HexCodec
  import opened Json
  import opened Jsmn

  datatype Response = Response(canId: U32, uds: seq<Byte>, delayMs: U32)

  datatype Recorded = Recorded(canId: U32, uds: seq<Byte>, responses: seq<Response>)

  datatype Tape = Tape(recordingId: string, vehicle: string, exchanges: seq<Recorded>)

  /** calloc'd entries. */
  const ZERO_RESPONSE := Response(0, [], 0)
  const ZERO_RECORDED := Recorded(0, [], [])
  const EMPTY_TAPE := Tape("", "", [])

  predicate IsKey(tok: Token, s: string) {
    tok.kind == String && tok.text == s
  }

  /** memcpy of at most 127 characters over a zero-filled field: a longer earlier value keeps its tail. */
  function CopyOver(field: string, text: string): string {
    var copied := Cut(text, 127);
    if |copied| < |field| then copied + field[|copied|..] else copied
  }

  // ---- the walk as functions: one per loop, the cursor passed along --------------------------

  function SetTxField(x: Recorded, key: Token, text: string): Recorded {
    if IsKey(key, "can_id") then x.(canId := ParseCanId(text))
    else if IsKey(key, "uds") then x.(uds := HexDecode(text))
    else x
  }

  function SetResponseField(x: Response, key: Token, text: string): Response {
    if IsKey(key, "can_id") then x.(canId := ParseCanId(text))
    else if IsKey(key, "uds") then x.(uds := HexDecode(text))
    else if IsKey(key, "delay_ms") then x.(delayMs := ParseDelay(text))
    else x
  }

  function WalkTx(tok: seq<Token>, t: nat, left: nat, x: Recorded): (r: (Recorded, nat))
    ensures r.1 >= t
    decreases left
  {
    if left == 0 || t >= |tok| then (x, t)
    else WalkTx(tok, t + 2, left - 1, if t + 1 < |tok| then SetTxField(x, tok[t], tok[t + 1].text) else x)
  }

  function WalkResponse(tok: seq<Token>, t: nat, left: nat, x: Response): (r: (Response, nat))
    ensures r.1 >= t
    decreases left
  {
    if left == 0 || t >= |tok| then (x, t)
    else WalkResponse(tok, t + 2, left - 1, if t + 1 < |tok| then SetResponseField(x, tok[t], tok[t + 1].text) else x)
  }

  function WalkRx(tok: seq<Token>, t: nat, rx: nat, acc: seq<Response>): (r: (seq<Response>, nat))
    requires rx <= |acc|
    ensures |r.0| == |acc| && r.1 >= t
    decreases |acc| - rx
  {
    if rx == |acc| || t >= |tok| then (acc, t)
    else if tok[t].kind != Object then WalkRx(tok, t + 1, rx + 1, acc)
    else
      var (x, t') := WalkResponse(tok, t + 1, tok[t].size, acc[rx]);
      WalkRx(tok, t', rx + 1, acc[rx := x])
  }

  function Zeros<T>(n: nat, zero: T): seq<T> {
    seq(n, _ => zero)
  }

  /** One member of an exchange object: its tx object, its rx array, or two tokens to skip. */
  function WalkMember(tok: seq<Token>, j: nat, x: Recorded): (r: (Recorded, nat))
    requires j < |tok|
    ensures r.1 >= j + 2
  {
    if IsKey(tok[j], "tx") && j + 1 < |tok| && tok[j + 1].kind == Object then
      WalkTx(tok, j + 2, tok[j + 1].size, x)
    else if IsKey(tok[j], "rx") && j + 1 < |tok| && tok[j + 1].kind == Array then
      var (rs, t) := WalkRx(tok, j + 2, 0, Zeros(tok[j + 1].size, ZERO_RESPONSE));
      (x.(responses := rs), t)
    else (x, j + 2)
  }

  function WalkExchange(tok: seq<Token>, j: nat, left: nat, x: Recorded): (r: (Recorded, nat))
    ensures r.1 >= j
    decreases left
  {
    if left == 0 || j >= |tok| then (x, j)
    else
      var (x', j') := WalkMember(tok, j, x);
      WalkExchange(tok, j', left - 1, x')
  }

  function WalkExchanges(tok: seq<Token>, j: nat, e: nat, acc: seq<Recorded>): (r: (seq<Recorded>, nat))
    requires e <= |acc|
    ensures |r.0| == |acc| && r.1 >= j
    decreases |acc| - e
  {
    if e == |acc| || j >= |tok| then (acc, j)
    else if tok[j].kind != Object then WalkExchanges(tok, j + 1, e + 1, acc)
    else
      var (x, j') := WalkExchange(tok, j + 1, tok[j].size, acc[e]);
      WalkExchanges(tok, j', e + 1, acc[e := x])
  }

  function SetTopField(tape: Tape, key: Token, text: string): Tape {
    if IsKey(key, "recording_id") then tape.(recordingId := CopyOver(tape.recordingId, text))
    else if IsKey(key, "vehicle_profile") then tape.(vehicle := CopyOver(tape.vehicle, text))
    else tape
  }

  /** The outer loop. Every round moves the cursor by at least two. */
  function WalkTop(tok: seq<Token>, i: nat, tape: Tape): Tape
    decreases |tok| - i
  {
    if i >= |tok| then tape
    else if IsKey(tok[i], "exchanges") && i + 1 < |tok| && tok[i + 1].kind == Array then
      var (xs, j) := WalkExchanges(tok, i + 2, 0, Zeros(tok[i + 1].size, ZERO_RECORDED));
      WalkTop(tok, j, tape.(exchanges := xs))
    else WalkTop(tok, i + 2, if i + 1 < |tok| then SetTopField(tape, tok[i], tok[i + 1].text) else tape)
  }

  function Load(tok: seq<Token>): Option<Tape> {
    if |tok| < 1 || tok[0].kind != Object then None else Some(WalkTop(tok, 1, EMPTY_TAPE))
  }

  predicate NamedAny(tok: Token, names: set<string>) {
    tok.kind == String && tok.text in names
  }

  /** Whatever the tokens: only a string is a key, and what is no key of the loop it stands in sets nothing and takes two
      tokens. */
  lemma UnknownTakesTwo(tok: seq<Token>, j: nat, left: nat, x: Recorded, r: Response, tape: Tape)
    requires j < |tok| && left > 0
    ensures !NamedAny(tok[j], {"can_id", "uds"}) ==> WalkTx(tok, j, left, x) == WalkTx(tok, j + 2, left - 1, x)
    ensures !NamedAny(tok[j], {"can_id", "uds", "delay_ms"}) ==>
              WalkResponse(tok, j, left, r) == WalkResponse(tok, j + 2, left - 1, r)
    ensures !NamedAny(tok[j], {"tx", "rx"}) ==> WalkMember(tok, j, x) == (x, j + 2)
    ensures !NamedAny(tok[j], {"recording_id", "vehicle_profile", "exchanges"}) ==>
              WalkTop(tok, j, tape) == WalkTop(tok, j + 2, tape)
  {
  }

  /** So does a tx that is followed by no object, and an rx or exchanges that is followed by no array. */
  lemma WrongKindTakesTwo(tok: seq<Token>, j: nat, x: Recorded, tape: Tape)
    requires j + 1 < |tok|
    ensures tok[j].text == "tx" && tok[j + 1].kind != Object ==> WalkMember(tok, j, x) == (x, j + 2)
    ensures tok[j].text == "rx" && tok[j + 1].kind != Array ==> WalkMember(tok, j, x) == (x, j + 2)
    ensures tok[j].text == "exchanges" && tok[j + 1].kind != Array ==> WalkTop(tok, j, tape) == WalkTop(tok, j + 2, tape)
  {
  }

  /** An element that is no object takes one token and leaves its entry zeroed. */
  lemma OtherElementsTakeOne(tok: seq<Token>, t: nat, k: nat, rs: seq<Response>, xs: seq<Recorded>)
    requires t < |tok| && tok[t].kind != Object
    ensures k < |rs| ==> WalkRx(tok, t, k, rs) == WalkRx(tok, t + 1, k + 1, rs)
    ensures k < |xs| ==> WalkExchanges(tok, t, k, xs) == WalkExchanges(tok, t + 1, k + 1, xs)
  {
  }

  // ---- the loops themselves ---------------------------------------------------------------------

  method LoadTx(tok: seq<Token>, start: nat, size: nat, exchanges: array<Recorded>, e: nat) returns (t: nat)
    requires e < exchanges.Length
    modifies exchanges
    ensures (exchanges[e], t) == WalkTx(tok, start, size, old(exchanges[e]))
    ensures forall k :: 0 <= k < exchanges.Length && k != e ==> exchanges[k] == old(exchanges[k])
  {
    t := start;
    var q := 0;
    while q < size && t < |tok|
      invariant q <= size
      invariant WalkTx(tok, t, size - q, exchanges[e]) == WalkTx(tok, start, size, old(exchanges[e]))
      invariant forall k :: 0 <= k < exchanges.Length && k != e ==> exchanges[k] == old(exchanges[k])
    {
      if IsKey(tok[t], "can_id") && t + 1 < |tok| {
        exchanges[e] := exchanges[e].(canId := ParseCanId(tok[t + 1].text));
      } else if IsKey(tok[t], "uds") && t + 1 < |tok| {
        var buffer, n := ParseHexBytes(tok[t + 1].text);
        exchanges[e] := exchanges[e].(uds := buffer[..n]);
      }
      t := t + 2;
      q := q + 1;
    }
  }

  method LoadResponse(tok: seq<Token>, start: nat, size: nat, responses: array<Response>, rx: nat) returns (t: nat)
    requires rx < responses.Length
    modifies responses
    ensures (responses[rx], t) == WalkResponse(tok, start, size, old(responses[rx]))
    ensures forall k :: 0 <= k < responses.Length && k != rx ==> responses[k] == old(responses[k])
  {
    t := start;
    var q := 0;
    while q < size && t < |tok|
      invariant q <= size
      invariant WalkResponse(tok, t, size - q, responses[rx]) == WalkResponse(tok, start, size, old(responses[rx]))
      invariant forall k :: 0 <= k < responses.Length && k != rx ==> responses[k] == old(responses[k])
    {
      if IsKey(tok[t], "can_id") && t + 1 < |tok| {
        responses[rx] := responses[rx].(canId := ParseCanId(tok[t + 1].text));
      } else if IsKey(tok[t], "uds") && t + 1 < |tok| {
        var buffer, n := ParseHexBytes(tok[t + 1].text);
        responses[rx] := responses[rx].(uds := buffer[..n]);
      } else if IsKey(tok[t], "delay_ms") && t + 1 < |tok| {
        responses[rx] := responses[rx].(delayMs := ParseDelay(tok[t + 1].text));
      }
      t := t + 2;
      q := q + 1;
    }
  }

  method LoadRx(tok: seq<Token>, start: nat, size: nat) returns (responses: array<Response>, t: nat)
    ensures fresh(responses)
    ensures (responses[..], t) == WalkRx(tok, start, 0, Zeros(size, ZERO_RESPONSE))
  {
    responses := new Response[size](_ => ZERO_RESPONSE);
    assert responses[..] == Zeros(size, ZERO_RESPONSE);
    t := start;
    var rx := 0;
    while rx < size && t < |tok|
      invariant rx <= size == responses.Length && fresh(responses)
      invariant WalkRx(tok, t, rx, responses[..]) == WalkRx(tok, start, 0, Zeros(size, ZERO_RESPONSE))
    {
      if tok[t].kind != Object {
        t := t + 1;
      } else {
        ghost var before := responses[..];
        t := LoadResponse(tok, t + 1, tok[t].size, responses, rx);
        assert responses[..] == before[rx := responses[rx]];
      }
      rx := rx + 1;
    }
  }

  method LoadExchange(tok: seq<Token>, start: nat, size: nat, exchanges: array<Recorded>, e: nat) returns (j: nat)
    requires e < exchanges.Length
    modifies exchanges
    ensures (exchanges[e], j) == WalkExchange(tok, start, size, old(exchanges[e]))
    ensures forall k :: 0 <= k < exchanges.Length && k != e ==> exchanges[k] == old(exchanges[k])
  {
    j := start;
    var k := 0;
    while k < size && j < |tok|
      invariant k <= size
      invariant WalkExchange(tok, j, size - k, exchanges[e]) == WalkExchange(tok, start, size, old(exchanges[e]))
      invariant forall k :: 0 <= k < exchanges.Length && k != e ==> exchanges[k] == old(exchanges[k])
    {
      if IsKey(tok[j], "tx") && j + 1 < |tok| && tok[j + 1].kind == Object {
        j := LoadTx(tok, j + 2, tok[j + 1].size, exchanges, e);
      } else if IsKey(tok[j], "rx") && j + 1 < |tok| && tok[j + 1].kind == Array {
        var responses, t := LoadRx(tok, j + 2, tok[j + 1].size);
        exchanges[e] := exchanges[e].(responses := responses[..]);
        j := t;
      } else {
        j := j + 2;
      }
      k := k + 1;
    }
  }

  method LoadExchanges(tok: seq<Token>, start: nat, size: nat) returns (exchanges: array<Recorded>, j: nat)
    ensures fresh(exchanges)
    ensures (exchanges[..], j) == WalkExchanges(tok, start, 0, Zeros(size, ZERO_RECORDED))
  {
    exchanges := new Recorded[size](_ => ZERO_RECORDED);
    assert exchanges[..] == Zeros(size, ZERO_RECORDED);
    j := start;
    var e := 0;
    while e < size && j < |tok|
      invariant e <= size == exchanges.Length && fresh(exchanges)
      invariant WalkExchanges(tok, j, e, exchanges[..]) == WalkExchanges(tok, start, 0, Zeros(size, ZERO_RECORDED))
    {
      if tok[j].kind != Object {
        j := j + 1;
      } else {
        ghost var before := exchanges[..];
        j := LoadExchange(tok, j + 1, tok[j].size, exchanges, e);
        assert exchanges[..] == before[e := exchanges[e]];
      }
      e := e + 1;
    }
  }

  /** recording_load, from the token array on: total, and every token read stays inside the array. */
  method RecordingLoad(tok: seq<Token>) returns (tape: Option<Tape>)
    ensures tape == Load(tok)
  {
    if |tok| < 1 || tok[0].kind != Object {
      return None;
    }
    var recordingId, vehicle, xs := "", "", [];
    var i := 1;
    while i < |tok|
      invariant WalkTop(tok, i, Tape(recordingId, vehicle, xs)) == WalkTop(tok, 1, EMPTY_TAPE)
      decreases |tok| - i
    {
      if IsKey(tok[i], "recording_id") && i + 1 < |tok| {
        recordingId := CopyOver(recordingId, tok[i + 1].text);
        i := i + 2;
      } else if IsKey(tok[i], "vehicle_profile") && i + 1 < |tok| {
        vehicle := CopyOver(vehicle, tok[i + 1].text);
        i := i + 2;
      } else if IsKey(tok[i], "exchanges") && i + 1 < |tok| && tok[i + 1].kind == Array {
        var exchanges, j := LoadExchanges(tok, i + 2, tok[i + 1].size);
        xs := exchanges[..];
        i := j;
      } else {
        i := i + 2;
      }
    }
    return Some(Tape(recordingId, vehicle, xs));
  }

  // ---- from the file's text -----------------------------------------------------------------------

  /** Count the tokens, tokenize into an array of that size, and walk it. */
  function LoadText(json: string): Option<Tape> {
    match CountFrom(json, 0)
    case Uncounted(_) => None
    case Count(total) =>
      if total < 1 then None
      else match Parse(json, START, total)
           case Failed(_) => None
           case Tokens(toks) => Load(TokensOf(json, toks))
  }

  /** recording_load on the bytes of the file. */
  method LoadFile(json: string) returns (tape: Option<Tape>)
    ensures tape == LoadText(json)
  {
    var total := CountTokens(json);
    if total.Uncounted? || total.n < 1 {
      return None;
    }
    var parser := new Parser(json, total.n);
    var parsed := parser.Run();
    if parsed.Failed? {
      return None;
    }
    tape := RecordingLoad(TokensOf(json, parsed.toks));
  }

  // ---- recording_lookup -----------------------------------------------------------------------------

  predicate HasKey(x: Recorded, canId: U32, uds: seq<Byte>) {
    x.canId == canId && x.uds == uds
  }

  /** The position of the first entry with the key, |xs| if there is none. */
  function FirstMatch(xs: seq<Recorded>, canId: U32, uds: seq<Byte>, i: nat): (r: nat)
    requires i <= |xs|
    ensures i <= r <= |xs|
    ensures forall j :: i <= j < r ==> !HasKey(xs[j], canId, uds)
    ensures r < |xs| ==> HasKey(xs[r], canId, uds)
    decreases |xs| - i
  {
    if i == |xs| || HasKey(xs[i], canId, uds) then i else FirstMatch(xs, canId, uds, i + 1)
  }

  function Lookup(xs: seq<Recorded>, canId: U32, uds: seq<Byte>): Option<Recorded> {
    var i := FirstMatch(xs, canId, uds, 0);
    if i < |xs| then Some(xs[i]) else None
  }

  /** memcmp(a, b, |a|) == 0 for two buffers of the same length. */
  method SameBytes(a: seq<Byte>, b: seq<Byte>) returns (same: bool)
    requires |a| == |b|
    ensures same <==> a == b
  {
    for i := 0 to |a|
      invariant a[..i] == b[..i]
    {
      if a[i] != b[i] {
        return false;
      }
    }
    assert a == a[..|a|] && b == b[..|b|];
    return true;
  }

  /** recording_lookup: the linear scan that compares id, length, then bytes. */
  method RecordingLookup(xs: seq<Recorded>, canId: U32, uds: seq<Byte>) returns (r: Option<Recorded>)
    ensures r == Lookup(xs, canId, uds)
  {
    for i := 0 to |xs|
      invariant FirstMatch(xs, canId, uds, 0) == FirstMatch(xs, canId, uds, i)
    {
      if xs[i].canId != canId { continue; }
      if |xs[i].uds| != |uds| { continue; }
      var same := SameBytes(xs[i].uds, uds);
      if same {
        return Some(xs[i]);
      }
    }
    return None;
  }

  lemma LookupDetermined(xs: seq<Recorded>, canId: U32, uds: seq<Byte>, i: nat)
    requires i <= |xs|
    requires forall j :: 0 <= j < i ==> !HasKey(xs[j], canId, uds)
    requires i < |xs| ==> HasKey(xs[i], canId, uds)
    ensures Lookup(xs, canId, uds) == if i < |xs| then Some(xs[i]) else None
  {
  }

  /** Entries the walk left zero-filled are invisible to requests, which always carry a UDS byte. */
  lemma SkippedEntriesInvisible(a: seq<Recorded>, b: seq<Recorded>, canId: U32, uds: seq<Byte>)
    requires uds != []
    ensures Lookup(a + [ZERO_RECORDED] + b, canId, uds) == Lookup(a + b, canId, uds)
  {
    var with, without := a + [ZERO_RECORDED] + b, a + b;
    var i := FirstMatch(without, canId, uds, 0);
    var k := if i < |a| then i else i + 1;
    forall j | 0 <= j < k ensures !HasKey(with[j], canId, uds) {
      assert with[j] == if j < |a| then without[j] else if j == |a| then ZERO_RECORDED else without[j - 1];
    }
    assert i < |without| ==> with[k] == without[i];
    LookupDetermined(with, canId, uds, k);
  }
}
