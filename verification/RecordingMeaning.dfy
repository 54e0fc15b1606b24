/** What the cursor walk reads out of a JSON document, stated on the document itself. */
module RecordingMeaning {
  import opened Bytes
  import opened Text
  import opened HexCodec
  import opened Json
  import opened JsonText
  import opened JsmnAccepts
  import opened JsmnMeaning
  import opened Jsmn
  import opened Recording

  // ---- documents the walk stays in step with ------------------------------------------------

  predicate ScalarMembers(ms: seq<Member>) {
    forall i :: 0 <= i < |ms| ==> Scalar(ms[i].value)
  }

  /** A response: an object of scalars. A scalar in its place is skipped as one token. */
  predicate ResponseShaped(v: Value) {
    Scalar(v) || (v.Obj? && ScalarMembers(v.members))
  }

  predicate ExchangeMemberShaped(m: Member) {
    || Scalar(m.value)
    || (m.key == "tx" && m.value.Obj? && ScalarMembers(m.value.members))
    || (m.key == "rx" && m.value.Arr? && forall i :: 0 <= i < |m.value.elems| ==> ResponseShaped(m.value.elems[i]))
  }

  predicate ExchangeShaped(v: Value) {
    Scalar(v) || (v.Obj? && ExchangeMembersShaped(v.members))
  }

  predicate TopMemberShaped(m: Member) {
    || Scalar(m.value)
    || (m.key == "exchanges" && m.value.Arr? && forall i :: 0 <= i < |m.value.elems| ==> ExchangeShaped(m.value.elems[i]))
  }

  // ---- their meaning: later members override earlier ones --------------------------------------

  function TxMeaning(ms: seq<Member>, x: Recorded): Recorded
    requires ScalarMembers(ms)
  {
    if ms == [] then x
    else TxMeaning(ms[1..], SetTxField(x, KeyToken(ms[0].key), ms[0].value.text))
  }

  function ResponseFields(ms: seq<Member>, x: Response): Response
    requires ScalarMembers(ms)
  {
    if ms == [] then x
    else ResponseFields(ms[1..], SetResponseField(x, KeyToken(ms[0].key), ms[0].value.text))
  }

  function ResponseMeaning(v: Value): Response
    requires ResponseShaped(v)
  {
    if v.Obj? then ResponseFields(v.members, ZERO_RESPONSE) else ZERO_RESPONSE
  }

  function RxMeaning(vs: seq<Value>): seq<Response>
    requires forall i :: 0 <= i < |vs| ==> ResponseShaped(vs[i])
  {
    seq(|vs|, i requires 0 <= i < |vs| => ResponseMeaning(vs[i]))
  }

  function ExchangeStep(m: Member, x: Recorded): Recorded
    requires ExchangeMemberShaped(m)
  {
    if m.value.Obj? then TxMeaning(m.value.members, x)
    else if m.value.Arr? then x.(responses := RxMeaning(m.value.elems))
    else x
  }

  predicate ExchangeMembersShaped(ms: seq<Member>) {
    forall i :: 0 <= i < |ms| ==> ExchangeMemberShaped(ms[i])
  }

  function ExchangeFields(ms: seq<Member>, x: Recorded): Recorded
    requires ExchangeMembersShaped(ms)
  {
    if ms == [] then x else ExchangeFields(ms[1..], ExchangeStep(ms[0], x))
  }

  function ExchangeMeaning(v: Value): Recorded
    requires ExchangeShaped(v)
  {
    if v.Obj? then ExchangeFields(v.members, ZERO_RECORDED) else ZERO_RECORDED
  }

  function ExchangesMeaning(vs: seq<Value>): seq<Recorded>
    requires forall i :: 0 <= i < |vs| ==> ExchangeShaped(vs[i])
  {
    seq(|vs|, i requires 0 <= i < |vs| => ExchangeMeaning(vs[i]))
  }

  function TopStep(m: Member, tape: Tape): Tape
    requires TopMemberShaped(m)
  {
    if m.value.Arr? then tape.(exchanges := ExchangesMeaning(m.value.elems))
    else SetTopField(tape, KeyToken(m.key), m.value.text)
  }

  predicate TopMembersShaped(ms: seq<Member>) {
    forall i :: 0 <= i < |ms| ==> TopMemberShaped(ms[i])
  }

  function TopFields(ms: seq<Member>, tape: Tape): Tape
    requires TopMembersShaped(ms)
  {
    if ms == [] then tape else TopFields(ms[1..], TopStep(ms[0], tape))
  }

  /** A top-level member the walk stays in step with: besides the shaped ones, any object under an unknown key. */
  predicate LooseMember(m: Member)
    decreases m, 0
  {
    || TopMemberShaped(m)
    || (m.value.Obj? && m.key != "recording_id" && m.key != "vehicle_profile" && LooseMembers(m.value.members))
  }

  predicate LooseMembers(ms: seq<Member>)
    decreases ms, 1
  {
    forall i :: 0 <= i < |ms| ==> LooseMember(ms[i])
  }

  predicate LooseDocument(v: Value) {
    v.Obj? && LooseMembers(v.members)
  }

  /** The members with every object under an unknown key replaced by its own members, to any depth. */
  function Splice(ms: seq<Member>): (r: seq<Member>)
    requires LooseMembers(ms)
    ensures TopMembersShaped(r)
    decreases ms, 0
  {
    if ms == [] then [] else SpliceMember(ms[0]) + Splice(ms[1..])
  }

  function SpliceMember(m: Member): (r: seq<Member>)
    requires LooseMember(m)
    ensures TopMembersShaped(r)
    decreases m, 1
  {
    if TopMemberShaped(m) then [m] else Splice(m.value.members)
  }

  function Meaning(v: Value): Tape
    requires LooseDocument(v)
  {
    TopFields(Splice(v.members), EMPTY_TAPE)
  }

  // ---- the walk computes the meaning -------------------------------------------------------------

  lemma {:induction false} WalkTxMeaning(tok: seq<Token>, t: nat, ms: seq<Member>, x: Recorded)
    requires ScalarMembers(ms) && MembersStand(tok, t, ms)
    ensures WalkTx(tok, t, |ms|, x) == (TxMeaning(ms, x), t + SizeMembers(ms))
    decreases |ms|
  {
    if ms != [] {
      assert Scalar(ms[0].value);
      WalkTxMeaning(tok, t + 2, ms[1..], SetTxField(x, tok[t], tok[t + 1].text));
    }
  }

  lemma {:induction false} WalkResponseMeaning(tok: seq<Token>, t: nat, ms: seq<Member>, x: Response)
    requires ScalarMembers(ms) && MembersStand(tok, t, ms)
    ensures WalkResponse(tok, t, |ms|, x) == (ResponseFields(ms, x), t + SizeMembers(ms))
    decreases |ms|
  {
    if ms != [] {
      assert Scalar(ms[0].value);
      WalkResponseMeaning(tok, t + 2, ms[1..], SetResponseField(x, tok[t], tok[t + 1].text));
    }
  }

  lemma ResponseStands(tok: seq<Token>, t: nat, v: Value)
    requires v.Obj? && ResponseShaped(v) && Stands(tok, t, v)
    ensures t < |tok| && tok[t].kind == Object
    ensures WalkResponse(tok, t + 1, tok[t].size, ZERO_RESPONSE) == (ResponseMeaning(v), t + Size(v))
  {
    WalkResponseMeaning(tok, t + 1, v.members, ZERO_RESPONSE);
  }

  lemma WalkRxObject(tok: seq<Token>, t: nat, rx: nat, acc: seq<Response>, x: Response, next: nat)
    requires t < |tok| && tok[t].kind == Object && rx < |acc|
    requires WalkResponse(tok, t + 1, tok[t].size, acc[rx]) == (x, next)
    ensures WalkRx(tok, t, rx, acc) == WalkRx(tok, next, rx + 1, acc[rx := x])
  {
  }

  lemma WalkRxScalar(tok: seq<Token>, t: nat, v: Value, rx: nat, acc: seq<Response>)
    requires Scalar(v) && Stands(tok, t, v) && rx < |acc|
    ensures WalkRx(tok, t, rx, acc) == WalkRx(tok, t + Size(v), rx + 1, acc)
  {
  }

  lemma WalkRxStep(tok: seq<Token>, t: nat, v: Value, rx: nat, acc: seq<Response>)
    requires ResponseShaped(v) && Stands(tok, t, v) && rx < |acc| && acc[rx] == ZERO_RESPONSE
    ensures WalkRx(tok, t, rx, acc) == WalkRx(tok, t + Size(v), rx + 1, acc[rx := ResponseMeaning(v)])
  {
    if v.Obj? {
      ResponseStands(tok, t, v);
      WalkRxObject(tok, t, rx, acc, ResponseMeaning(v), t + Size(v));
    } else {
      WalkRxScalar(tok, t, v, rx, acc);
      assert acc[rx := ResponseMeaning(v)] == acc;
    }
  }

  /** At an element's boundary the walk fills entry `rx` with its meaning and lands on the next boundary. */
  lemma {:induction false} WalkRxMeaning(tok: seq<Token>, t: nat, vs: seq<Value>, rx: nat, acc: seq<Response>)
    requires forall i :: 0 <= i < |vs| ==> ResponseShaped(vs[i])
    requires rx + |vs| == |acc| && ElemsStand(tok, t, vs)
    requires acc[rx..] == Zeros(|vs|, ZERO_RESPONSE)
    ensures WalkRx(tok, t, rx, acc) == (acc[..rx] + RxMeaning(vs), t + SizeElems(vs))
    decreases |vs|
  {
    if vs == [] {
      assert acc[..rx] + RxMeaning(vs) == acc;
    } else {
      var v := vs[0];
      EntryFilled(acc, rx, |vs|, ZERO_RESPONSE, ResponseMeaning(v));
      WalkRxStep(tok, t, v, rx, acc);
      WalkRxMeaning(tok, t + Size(v), vs[1..], rx + 1, acc[rx := ResponseMeaning(v)]);
      assert RxMeaning(vs) == [ResponseMeaning(v)] + RxMeaning(vs[1..]);
      Regrouped(acc[..rx], ResponseMeaning(v), RxMeaning(vs[1..]));
    }
  }

  /** Filling the first of the `n` zeroed entries left. */
  lemma EntryFilled<T>(acc: seq<T>, i: nat, n: nat, zero: T, x: T)
    requires n > 0 && i + n == |acc| && acc[i..] == Zeros(n, zero)
    ensures acc[i] == zero
    ensures acc[i := x][i + 1..] == Zeros(n - 1, zero) && acc[i := x][..i + 1] == acc[..i] + [x]
  {
    assert acc[i] == acc[i..][0];
    assert acc[i := x][i + 1..] == acc[i..][1..];
  }

  lemma Regrouped<T>(a: seq<T>, x: T, b: seq<T>)
    ensures (a + [x]) + b == a + ([x] + b)
  {
  }

  lemma WalkMemberMeaning(tok: seq<Token>, j: nat, m: Member, x: Recorded)
    requires ExchangeMemberShaped(m)
    requires j < |tok| && tok[j] == KeyToken(m.key) && Stands(tok, j + 1, m.value)
    ensures WalkMember(tok, j, x) == (ExchangeStep(m, x), j + 1 + Size(m.value))
  {
    var v := m.value;
    if v.Obj? {
      WalkTxMeaning(tok, j + 2, v.members, x);
    } else if v.Arr? {
      var zeros := Zeros(|v.elems|, ZERO_RESPONSE);
      assert zeros[0..] == zeros && zeros[..0] + RxMeaning(v.elems) == RxMeaning(v.elems);
      WalkRxMeaning(tok, j + 2, v.elems, 0, zeros);
    }
  }

  lemma {:induction false} WalkExchangeMeaning(tok: seq<Token>, j: nat, ms: seq<Member>, x: Recorded)
    requires ExchangeMembersShaped(ms) && MembersStand(tok, j, ms)
    ensures WalkExchange(tok, j, |ms|, x) == (ExchangeFields(ms, x), j + SizeMembers(ms))
    decreases |ms|
  {
    if ms != [] {
      WalkMemberMeaning(tok, j, ms[0], x);
      WalkExchangeMeaning(tok, j + 1 + Size(ms[0].value), ms[1..], ExchangeStep(ms[0], x));
    }
  }

  lemma WalkExchangesStep(tok: seq<Token>, j: nat, v: Value, e: nat, acc: seq<Recorded>)
    requires ExchangeShaped(v) && Stands(tok, j, v) && e < |acc| && acc[e] == ZERO_RECORDED
    ensures WalkExchanges(tok, j, e, acc) == WalkExchanges(tok, j + Size(v), e + 1, acc[e := ExchangeMeaning(v)])
  {
    if v.Obj? {
      WalkExchangeMeaning(tok, j + 1, v.members, ZERO_RECORDED);
    } else {
      assert acc[e := ExchangeMeaning(v)] == acc;
    }
  }

  lemma {:induction false} WalkExchangesMeaning(tok: seq<Token>, j: nat, vs: seq<Value>, e: nat, acc: seq<Recorded>)
    requires forall i :: 0 <= i < |vs| ==> ExchangeShaped(vs[i])
    requires e + |vs| == |acc| && ElemsStand(tok, j, vs)
    requires acc[e..] == Zeros(|vs|, ZERO_RECORDED)
    ensures WalkExchanges(tok, j, e, acc) == (acc[..e] + ExchangesMeaning(vs), j + SizeElems(vs))
    decreases |vs|
  {
    if vs == [] {
      assert acc[..e] + ExchangesMeaning(vs) == acc;
    } else {
      var v := vs[0];
      EntryFilled(acc, e, |vs|, ZERO_RECORDED, ExchangeMeaning(v));
      WalkExchangesStep(tok, j, v, e, acc);
      WalkExchangesMeaning(tok, j + Size(v), vs[1..], e + 1, acc[e := ExchangeMeaning(v)]);
      assert ExchangesMeaning(vs) == [ExchangeMeaning(v)] + ExchangesMeaning(vs[1..]);
      Regrouped(acc[..e], ExchangeMeaning(v), ExchangesMeaning(vs[1..]));
    }
  }

  /** One top-level member: the cursor lands on the next, the tape holds the member's meaning. */
  lemma WalkTopMember(tok: seq<Token>, i: nat, m: Member, tape: Tape)
    requires TopMemberShaped(m)
    requires i < |tok| && tok[i] == KeyToken(m.key) && Stands(tok, i + 1, m.value)
    ensures WalkTop(tok, i, tape) == WalkTop(tok, i + 1 + Size(m.value), TopStep(m, tape))
  {
    var v := m.value;
    if v.Arr? {
      var zeros := Zeros(|v.elems|, ZERO_RECORDED);
      assert zeros[0..] == zeros && zeros[..0] + ExchangesMeaning(v.elems) == ExchangesMeaning(v.elems);
      WalkExchangesMeaning(tok, i + 2, v.elems, 0, zeros);
    }
  }

  lemma {:induction false} TopFieldsAppend(a: seq<Member>, b: seq<Member>, tape: Tape)
    requires TopMembersShaped(a) && TopMembersShaped(b)
    ensures TopMembersShaped(a + b) && TopFields(a + b, tape) == TopFields(b, TopFields(a, tape))
    decreases |a|
  {
    if a == [] {
      assert a + b == b;
    } else {
      TopFieldsAppend(a[1..], b, TopStep(a[0], tape));
      assert (a + b)[0] == a[0] && (a + b)[1..] == a[1..] + b;
    }
  }

  /** An object under an unknown key is not skipped: the walk steps into it. */
  lemma WalkIntoUnknown(tok: seq<Token>, i: nat, m: Member, tape: Tape)
    requires m.value.Obj? && m.key != "recording_id" && m.key != "vehicle_profile"
    requires i < |tok| && tok[i] == KeyToken(m.key) && Stands(tok, i + 1, m.value)
    ensures WalkTop(tok, i, tape) == WalkTop(tok, i + 2, tape)
  {
  }

  lemma OneTopField(m: Member, tape: Tape)
    requires TopMemberShaped(m)
    ensures TopFields([m], tape) == TopStep(m, tape)
  {
    assert [m][1..] == [];
  }

  lemma {:induction false} WalkLooseMember(tok: seq<Token>, i: nat, m: Member, tape: Tape)
    requires LooseMember(m)
    requires i < |tok| && tok[i] == KeyToken(m.key) && Stands(tok, i + 1, m.value)
    ensures WalkTop(tok, i, tape) == WalkTop(tok, i + 1 + Size(m.value), TopFields(SpliceMember(m), tape))
    decreases m, 1
  {
    if TopMemberShaped(m) {
      WalkTopMember(tok, i, m, tape);
      OneTopField(m, tape);
    } else {
      WalkIntoUnknown(tok, i, m, tape);
      WalkTopMeaning(tok, i + 2, m.value.members, tape);
    }
  }

  /** The top-level walk reads the document with every unknown object spliced open. */
  lemma {:induction false} WalkTopMeaning(tok: seq<Token>, i: nat, ms: seq<Member>, tape: Tape)
    requires LooseMembers(ms) && MembersStand(tok, i, ms)
    ensures WalkTop(tok, i, tape) == WalkTop(tok, i + SizeMembers(ms), TopFields(Splice(ms), tape))
    decreases ms, 0
  {
    if ms != [] {
      var m := ms[0];
      assert LooseMember(m);
      var spliced := SpliceMember(m);
      WalkLooseMember(tok, i, m, tape);
      WalkTopMeaning(tok, i + 1 + Size(m.value), ms[1..], TopFields(spliced, tape));
      TopFieldsAppend(spliced, Splice(ms[1..]), tape);
    }
  }

  /** On every such document the cursor walk over its tokens yields the spliced document's meaning. */
  lemma LoadMeaning(tok: seq<Token>, v: Value)
    requires LooseDocument(v) && Tokenized(tok, v)
    ensures Load(tok) == Some(Meaning(v))
  {
    WalkTopMeaning(tok, 1, v.members, EMPTY_TAPE);
  }

  /** And so does loading any text that spells it, in any layout. */
  lemma LoadTextMeaning(json: string, v: Value)
    requires LooseDocument(v) && SpellsValue(json, v)
    ensures LoadText(json) == Some(Meaning(v))
  {
    var toks := TextTokenized(json, v);
    LoadMeaning(TokensOf(json, toks), v);
  }

  /** Exactly the files a recording is loaded from: texts the tokenizer accepts whose first character that is no blank,
      colon or comma is an opening brace. */
  lemma LoadedIff(json: string)
    ensures LoadText(json).Some? <==>
            var q := FirstMark(json, 0);
            CountFrom(json, 0).Count? && Nests(Brackets(json, 0), "") && q < |json| && json[q] == '{'
  {
    var c := CountFrom(json, 0);
    if c.Count? {
      AcceptedIff(json, c.n);
      FirstIsObject(json, 0, c.n);
      PassesAgree(json, START, c.n);
    }
  }

  // ---- documents that represent a recording --------------------------------------------------------

  /** `key` occurs at position `i` only, or nowhere if `i` is past the end. */
  predicate Unique(ms: seq<Member>, key: string, i: nat) {
    && i <= |ms|
    && (i < |ms| ==> ms[i].key == key)
    && forall k :: 0 <= k < |ms| && ms[k].key == key ==> k == i
  }

  /** Exactly one member has the key, and its value is the scalar `text`. */
  ghost predicate Field(ms: seq<Member>, key: string, text: string) {
    exists i: nat :: Unique(ms, key, i) && i < |ms| && Scalar(ms[i].value) && ms[i].value.text == text
  }

  /** The spaced hex text of `bs`, in either case. */
  ghost predicate UdsField(ms: seq<Member>, bs: seq<Byte>) {
    Field(ms, "uds", HexSpaced(bs, false)) || Field(ms, "uds", HexSpaced(bs, true))
  }

  ghost predicate RepresentsTx(v: Value, canId: U32, uds: seq<Byte>) {
    && v.Obj? && ScalarMembers(v.members)
    && Field(v.members, "can_id", FormatCanId(canId))
    && UdsField(v.members, uds)
  }

  ghost predicate RepresentsResponse(v: Value, r: Response) {
    && v.Obj? && ScalarMembers(v.members)
    && Field(v.members, "can_id", FormatCanId(r.canId))
    && UdsField(v.members, r.uds)
    && (exists d: int :: Field(v.members, "delay_ms", DelayText(d)) && LoadedDelay(d) == r.delayMs)
  }

  ghost predicate RepresentsRx(v: Value, rs: seq<Response>) {
    v.Arr? && |v.elems| == |rs| && forall i :: 0 <= i < |rs| ==> RepresentsResponse(v.elems[i], rs[i])
  }

  /** One tx and one rx member in either order, any other members scalar. */
  ghost predicate RepresentsExchange(v: Value, x: Recorded) {
    && v.Obj?
    && (forall k :: 0 <= k < |v.members| && v.members[k].key != "tx" && v.members[k].key != "rx" ==>
          Scalar(v.members[k].value))
    && (exists i: nat :: Unique(v.members, "tx", i) && i < |v.members|
                         && RepresentsTx(v.members[i].value, x.canId, x.uds))
    && (exists i: nat :: Unique(v.members, "rx", i) && i < |v.members|
                         && RepresentsRx(v.members[i].value, x.responses))
  }

  ghost predicate RepresentsExchanges(v: Value, xs: seq<Recorded>) {
    v.Arr? && |v.elems| == |xs| && forall i :: 0 <= i < |xs| ==> RepresentsExchange(v.elems[i], xs[i])
  }

  /** One exchanges member anywhere among scalar members. */
  ghost predicate RepresentsRecording(v: Value, xs: seq<Recorded>) {
    && v.Obj?
    && (forall k :: 0 <= k < |v.members| && v.members[k].key != "exchanges" ==> Scalar(v.members[k].value))
    && (exists i: nat :: Unique(v.members, "exchanges", i) && i < |v.members|
                         && RepresentsExchanges(v.members[i].value, xs))
  }

  function Before(i: nat, n: nat): nat
    requires n > 0
  {
    if i == 0 then n - 1 else i - 1
  }

  lemma UniqueTail(ms: seq<Member>, key: string, i: nat)
    requires ms != [] && Unique(ms, key, i)
    ensures Unique(ms[1..], key, Before(i, |ms|))
    ensures i == 0 <==> ms[0].key == key
  {
  }

  lemma {:induction false} TxFieldsAt(ms: seq<Member>, x: Recorded, c: nat, u: nat)
    requires ScalarMembers(ms) && Unique(ms, "can_id", c) && Unique(ms, "uds", u)
    ensures TxMeaning(ms, x) ==
            x.(canId := if c < |ms| then ParseCanId(ms[c].value.text) else x.canId,
               uds := if u < |ms| then HexDecode(ms[u].value.text) else x.uds)
    decreases |ms|
  {
    if ms != [] {
      UniqueTail(ms, "can_id", c);
      UniqueTail(ms, "uds", u);
      TxFieldsAt(ms[1..], SetTxField(x, KeyToken(ms[0].key), ms[0].value.text), Before(c, |ms|), Before(u, |ms|));
    }
  }

  lemma {:induction false} ResponseFieldsAt(ms: seq<Member>, x: Response, c: nat, u: nat, d: nat)
    requires ScalarMembers(ms)
    requires Unique(ms, "can_id", c) && Unique(ms, "uds", u) && Unique(ms, "delay_ms", d)
    ensures ResponseFields(ms, x) ==
            Response(if c < |ms| then ParseCanId(ms[c].value.text) else x.canId,
                     if u < |ms| then HexDecode(ms[u].value.text) else x.uds,
                     if d < |ms| then ParseDelay(ms[d].value.text) else x.delayMs)
    decreases |ms|
  {
    if ms != [] {
      UniqueTail(ms, "can_id", c);
      UniqueTail(ms, "uds", u);
      UniqueTail(ms, "delay_ms", d);
      ResponseFieldsAt(ms[1..], SetResponseField(x, KeyToken(ms[0].key), ms[0].value.text),
                       Before(c, |ms|), Before(u, |ms|), Before(d, |ms|));
    }
  }

  lemma UdsFieldAt(ms: seq<Member>, bs: seq<Byte>) returns (u: nat)
    requires ScalarMembers(ms) && UdsField(ms, bs)
    ensures Unique(ms, "uds", u) && u < |ms| && HexDecode(ms[u].value.text) == bs
  {
    HexRoundTrip(bs, false);
    HexRoundTrip(bs, true);
    var upper := !Field(ms, "uds", HexSpaced(bs, false));
    u :| Unique(ms, "uds", u) && u < |ms| && Scalar(ms[u].value) && ms[u].value.text == HexSpaced(bs, upper);
  }

  lemma CanIdFieldAt(ms: seq<Member>, canId: U32) returns (c: nat)
    requires ScalarMembers(ms) && Field(ms, "can_id", FormatCanId(canId))
    ensures Unique(ms, "can_id", c) && c < |ms| && ParseCanId(ms[c].value.text) == canId
  {
    CanIdRoundTrip(canId);
    c :| Unique(ms, "can_id", c) && c < |ms| && Scalar(ms[c].value) && ms[c].value.text == FormatCanId(canId);
  }

  lemma TxRepresented(v: Value, canId: U32, uds: seq<Byte>, x: Recorded)
    requires RepresentsTx(v, canId, uds)
    ensures TxMeaning(v.members, x) == x.(canId := canId, uds := uds)
  {
    var c := CanIdFieldAt(v.members, canId);
    var u := UdsFieldAt(v.members, uds);
    TxFieldsAt(v.members, x, c, u);
  }

  lemma ResponseRepresented(v: Value, r: Response)
    requires RepresentsResponse(v, r)
    ensures ResponseShaped(v) && ResponseMeaning(v) == r
  {
    var ms := v.members;
    var c := CanIdFieldAt(ms, r.canId);
    var u := UdsFieldAt(ms, r.uds);
    var delay: int :| Field(ms, "delay_ms", DelayText(delay)) && LoadedDelay(delay) == r.delayMs;
    DelayCodec(delay);
    var d: nat :| Unique(ms, "delay_ms", d) && d < |ms| && Scalar(ms[d].value) && ms[d].value.text == DelayText(delay);
    ResponseFieldsAt(ms, ZERO_RESPONSE, c, u, d);
  }

  lemma RxRepresented(v: Value, rs: seq<Response>)
    requires RepresentsRx(v, rs)
    ensures forall i :: 0 <= i < |v.elems| ==> ResponseShaped(v.elems[i])
    ensures RxMeaning(v.elems) == rs
  {
    forall i | 0 <= i < |rs| ensures ResponseShaped(v.elems[i]) && ResponseMeaning(v.elems[i]) == rs[i] {
      ResponseRepresented(v.elems[i], rs[i]);
    }
  }

  /** The exchange's fields are those of its one tx and its one rx member, whichever comes first. */
  lemma {:induction false} ExchangeFieldsAt(ms: seq<Member>, x: Recorded, t: nat, r: nat, target: Recorded)
    requires forall k :: 0 <= k < |ms| && ms[k].key != "tx" && ms[k].key != "rx" ==> Scalar(ms[k].value)
    requires Unique(ms, "tx", t) && (t < |ms| ==> RepresentsTx(ms[t].value, target.canId, target.uds))
    requires Unique(ms, "rx", r) && (r < |ms| ==> RepresentsRx(ms[r].value, target.responses))
    requires t == |ms| ==> x.canId == target.canId && x.uds == target.uds
    requires r == |ms| ==> x.responses == target.responses
    ensures ExchangeMembersShaped(ms) && ExchangeFields(ms, x) == target
    decreases |ms|
  {
    if ms != [] {
      var v := ms[0].value;
      UniqueTail(ms, "tx", t);
      UniqueTail(ms, "rx", r);
      if t == 0 {
        TxRepresented(v, target.canId, target.uds, x);
      } else if r == 0 {
        RxRepresented(v, target.responses);
      }
      assert ExchangeMemberShaped(ms[0]);
      ExchangeFieldsAt(ms[1..], ExchangeStep(ms[0], x), Before(t, |ms|), Before(r, |ms|), target);
      assert ms == [ms[0]] + ms[1..];
    }
  }

  lemma ExchangeRepresented(v: Value, x: Recorded)
    requires RepresentsExchange(v, x)
    ensures ExchangeShaped(v) && ExchangeMeaning(v) == x
  {
    var ms := v.members;
    var t: nat :| Unique(ms, "tx", t) && t < |ms| && RepresentsTx(ms[t].value, x.canId, x.uds);
    var r: nat :| Unique(ms, "rx", r) && r < |ms| && RepresentsRx(ms[r].value, x.responses);
    ExchangeFieldsAt(ms, ZERO_RECORDED, t, r, x);
  }

  lemma ExchangesRepresented(v: Value, xs: seq<Recorded>)
    requires RepresentsExchanges(v, xs)
    ensures forall i :: 0 <= i < |v.elems| ==> ExchangeShaped(v.elems[i])
    ensures ExchangesMeaning(v.elems) == xs
  {
    forall i | 0 <= i < |xs| ensures ExchangeShaped(v.elems[i]) && ExchangeMeaning(v.elems[i]) == xs[i] {
      ExchangeRepresented(v.elems[i], xs[i]);
    }
  }

  lemma {:induction false} TopFieldsAt(ms: seq<Member>, tape: Tape, i: nat, xs: seq<Recorded>)
    requires forall k :: 0 <= k < |ms| && ms[k].key != "exchanges" ==> Scalar(ms[k].value)
    requires Unique(ms, "exchanges", i) && (i < |ms| ==> RepresentsExchanges(ms[i].value, xs))
    requires i == |ms| ==> tape.exchanges == xs
    ensures TopMembersShaped(ms) && TopFields(ms, tape).exchanges == xs
    decreases |ms|
  {
    if ms != [] {
      UniqueTail(ms, "exchanges", i);
      if i == 0 {
        ExchangesRepresented(ms[0].value, xs);
      }
      assert TopMemberShaped(ms[0]);
      TopFieldsAt(ms[1..], TopStep(ms[0], tape), Before(i, |ms|), xs);
      assert ms == [ms[0]] + ms[1..];
    }
  }

  lemma {:induction false} SpliceShaped(ms: seq<Member>)
    requires TopMembersShaped(ms)
    ensures LooseMembers(ms) && Splice(ms) == ms
    decreases |ms|
  {
    if ms != [] {
      assert TopMemberShaped(ms[0]);
      SpliceShaped(ms[1..]);
      assert ms == [ms[0]] + ms[1..];
    }
  }

  /** The loader rebuilds exactly the recording a document represents: any member order at any level,
      any unknown scalar members, either hex case, any layout of the text. */
  lemma LoaderRoundTrip(json: string, v: Value, xs: seq<Recorded>)
    requires RepresentsRecording(v, xs) && SpellsValue(json, v)
    ensures LoadText(json).Some? && LoadText(json).value.exchanges == xs
  {
    var i: nat :| Unique(v.members, "exchanges", i) && i < |v.members| && RepresentsExchanges(v.members[i].value, xs);
    TopFieldsAt(v.members, EMPTY_TAPE, i, xs);
    SpliceShaped(v.members);
    LoadTextMeaning(json, v);
  }

  // ---- the recording's id and vehicle ---------------------------------------------------------------

  /** The texts of the scalar members with the key, in order. */
  function TextsUnder(ms: seq<Member>, key: string): seq<string> {
    if ms == [] then []
    else (if ms[0].key == key && Scalar(ms[0].value) then [ms[0].value.text] else []) + TextsUnder(ms[1..], key)
  }

  /** How much of a text a 128-byte field takes, its final NUL aside. */
  function Taken(text: string): nat {
    if |text| > 127 then 127 else |text|
  }

  /** Character `j` comes from text `k`, and no later text reaches it. */
  ghost predicate ComesFrom(field: string, texts: seq<string>, j: int, k: int) {
    && 0 <= j < |field| && 0 <= k < |texts| && j < Taken(texts[k]) && field[j] == texts[k][j]
    && forall l :: k < l < |texts| ==> Taken(texts[l]) <= j
  }

  ghost predicate Written(field: string, texts: seq<string>, j: int) {
    exists k :: ComesFrom(field, texts, j, k)
  }

  /** The texts were written one over the other from the field's start: a longer earlier one keeps its tail. */
  ghost predicate Overlaid(field: string, texts: seq<string>) {
    && (forall k :: 0 <= k < |texts| ==> Taken(texts[k]) <= |field|)
    && forall j :: 0 <= j < |field| ==> Written(field, texts, j)
  }

  lemma NoLonger(a: string, b: string, texts: seq<string>)
    requires Overlaid(a, texts) && Overlaid(b, texts)
    ensures |a| <= |b|
  {
    if |a| > 0 {
      assert Written(a, texts, |a| - 1);
      var k :| ComesFrom(a, texts, |a| - 1, k);
    }
  }

  /** That determines the field. */
  lemma OverlaidOnce(a: string, b: string, texts: seq<string>)
    requires Overlaid(a, texts) && Overlaid(b, texts)
    ensures a == b
  {
    NoLonger(a, b, texts);
    NoLonger(b, a, texts);
    forall j | 0 <= j < |a| ensures a[j] == b[j] {
      assert Written(a, texts, j) && Written(b, texts, j);
      var k :| ComesFrom(a, texts, j, k);
      var l :| ComesFrom(b, texts, j, l);
      assert k == l;
    }
  }

  lemma WrittenOver(field: string, texts: seq<string>, text: string)
    requires Overlaid(field, texts)
    ensures Overlaid(CopyOver(field, text), texts + [text])
  {
    var more, all := CopyOver(field, text), texts + [text];
    forall j | 0 <= j < |more| ensures Written(more, all, j) {
      if j < Taken(text) {
        assert ComesFrom(more, all, j, |texts|);
      } else {
        assert Written(field, texts, j);
        var k :| ComesFrom(field, texts, j, k);
        assert ComesFrom(more, all, j, k);
      }
    }
  }

  lemma TextsOne(m: Member, key: string, before: seq<string>)
    ensures TextsUnder([m], key) == if m.key == key && Scalar(m.value) then [m.value.text] else []
    ensures before + [] == before
  {
    assert [m][1..] == [];
  }

  lemma StepNamed(m: Member, tape: Tape, ids: seq<string>, vehicles: seq<string>)
    requires TopMemberShaped(m) && Overlaid(tape.recordingId, ids) && Overlaid(tape.vehicle, vehicles)
    ensures Overlaid(TopStep(m, tape).recordingId, ids + TextsUnder([m], "recording_id"))
    ensures Overlaid(TopStep(m, tape).vehicle, vehicles + TextsUnder([m], "vehicle_profile"))
  {
    TextsOne(m, "recording_id", ids);
    TextsOne(m, "vehicle_profile", vehicles);
    if Scalar(m.value) {
      WrittenOver(tape.recordingId, ids, m.value.text);
      WrittenOver(tape.vehicle, vehicles, m.value.text);
    }
  }

  lemma TextsCons(m: Member, ms: seq<Member>, key: string, before: seq<string>)
    ensures TextsUnder([m] + ms, key) == TextsUnder([m], key) + TextsUnder(ms, key)
    ensures (before + TextsUnder([m], key)) + TextsUnder(ms, key) == before + TextsUnder([m] + ms, key)
  {
    assert ([m] + ms)[1..] == ms && [m][1..] == [];
  }

  lemma {:induction false} FieldsNamed(ms: seq<Member>, tape: Tape, ids: seq<string>, vehicles: seq<string>)
    requires TopMembersShaped(ms) && Overlaid(tape.recordingId, ids) && Overlaid(tape.vehicle, vehicles)
    ensures Overlaid(TopFields(ms, tape).recordingId, ids + TextsUnder(ms, "recording_id"))
    ensures Overlaid(TopFields(ms, tape).vehicle, vehicles + TextsUnder(ms, "vehicle_profile"))
    decreases |ms|
  {
    if ms == [] {
      assert ids + [] == ids && vehicles + [] == vehicles;
    } else {
      var m := ms[0];
      assert TopMemberShaped(m) && ms == [m] + ms[1..];
      StepNamed(m, tape, ids, vehicles);
      FieldsNamed(ms[1..], TopStep(m, tape), ids + TextsUnder([m], "recording_id"),
                  vehicles + TextsUnder([m], "vehicle_profile"));
      TextsCons(m, ms[1..], "recording_id", ids);
      TextsCons(m, ms[1..], "vehicle_profile", vehicles);
    }
  }

  /** The loaded id is made of the texts under "recording_id" and the vehicle of those under "vehicle_profile", nested
      ones included; each is empty if there is none. */
  lemma NamesLoaded(json: string, v: Value)
    requires LooseDocument(v) && SpellsValue(json, v)
    ensures LoadText(json).Some?
    ensures Overlaid(LoadText(json).value.recordingId, TextsUnder(Splice(v.members), "recording_id"))
    ensures Overlaid(LoadText(json).value.vehicle, TextsUnder(Splice(v.members), "vehicle_profile"))
  {
    LoadTextMeaning(json, v);
    FieldsNamed(Splice(v.members), EMPTY_TAPE, [], []);
    assert forall texts: seq<string> :: [] + texts == texts;
  }

  lemma {:induction false} TextsAt(ms: seq<Member>, key: string, i: nat)
    requires Unique(ms, key, i) && (i < |ms| ==> Scalar(ms[i].value))
    ensures TextsUnder(ms, key) == if i < |ms| then [ms[i].value.text] else []
    decreases |ms|
  {
    if ms != [] {
      UniqueTail(ms, key, i);
      TextsAt(ms[1..], key, Before(i, |ms|));
    }
  }

  lemma OverlaidOne(field: string, texts: seq<string>)
    requires Overlaid(field, texts) && |texts| <= 1
    ensures field == if texts == [] then "" else texts[0][..Taken(texts[0])]
  {
    if texts == [] {
      assert |field| > 0 ==> Written(field, texts, 0);
    } else {
      var text := texts[0][..Taken(texts[0])];
      assert Overlaid(text, texts) by {
        forall j | 0 <= j < |text| ensures Written(text, texts, j) {
          assert ComesFrom(text, texts, j, 0);
        }
      }
      OverlaidOnce(field, text, texts);
    }
  }

  /** A document without nested objects under unknown keys, in which each of the two keys occurs once at most: the id and
      the vehicle are the first 127 characters of their texts, or empty. */
  lemma NamesLoadedOnce(json: string, v: Value, i: nat, j: nat)
    requires v.Obj? && TopMembersShaped(v.members) && SpellsValue(json, v)
    requires Unique(v.members, "recording_id", i) && Unique(v.members, "vehicle_profile", j)
    ensures LoadText(json).Some?
    ensures LoadText(json).value.recordingId
         == if i == |v.members| then "" else v.members[i].value.text[..Taken(v.members[i].value.text)]
    ensures LoadText(json).value.vehicle
         == if j == |v.members| then "" else v.members[j].value.text[..Taken(v.members[j].value.text)]
  {
    SpliceShaped(v.members);
    NamesLoaded(json, v);
    assert i < |v.members| ==> TopMemberShaped(v.members[i]);
    assert j < |v.members| ==> TopMemberShaped(v.members[j]);
    TextsAt(v.members, "recording_id", i);
    TextsAt(v.members, "vehicle_profile", j);
    OverlaidOne(LoadText(json).value.recordingId, TextsUnder(v.members, "recording_id"));
    OverlaidOne(LoadText(json).value.vehicle, TextsUnder(v.members, "vehicle_profile"));
  }

  // ---- which exchanges array decides --------------------------------------------------------------

  /** The position of the last array-valued member, |ms| if there is none. */
  function LastArray(ms: seq<Member>, n: nat): (r: nat)
    requires n <= |ms|
    ensures r < n || r == |ms|
    ensures r < |ms| ==> ms[r].value.Arr?
    ensures forall k :: 0 <= k < n && (r == |ms| || r < k) ==> !ms[k].value.Arr?
  {
    if n == 0 then |ms| else if ms[n - 1].value.Arr? then n - 1 else LastArray(ms, n - 1)
  }

  /** Without an array among the members the exchanges stay as they are. */
  lemma {:induction false} NoArrayKeeps(ms: seq<Member>, tape: Tape)
    requires TopMembersShaped(ms) && forall k :: 0 <= k < |ms| ==> !ms[k].value.Arr?
    ensures TopFields(ms, tape).exchanges == tape.exchanges
    decreases |ms|
  {
    if ms != [] {
      assert TopMemberShaped(ms[0]) && !ms[0].value.Arr?;
      NoArrayKeeps(ms[1..], TopStep(ms[0], tape));
    }
  }

  /** What an array-valued member, the last such one, leaves as exchanges. */
  lemma LastArrayWins(ms: seq<Member>, i: nat, tape: Tape)
    requires TopMembersShaped(ms) && i < |ms| && ms[i].value.Arr?
    requires forall k :: i < k < |ms| ==> !ms[k].value.Arr?
    ensures ArrayShaped(ms[i].value) && TopFields(ms, tape).exchanges == ExchangesMeaning(ms[i].value.elems)
  {
    var before, after := ms[..i], ms[i..];
    assert TopMemberShaped(ms[i]);
    assert before + after == ms;
    TopFieldsAppend(before, after, tape);
    assert after[0] == ms[i] && after[1..] == ms[i + 1..];
    NoArrayKeeps(ms[i + 1..], TopStep(ms[i], TopFields(before, tape)));
  }

  predicate ArrayShaped(v: Value) {
    v.Arr? && forall k :: 0 <= k < |v.elems| ==> ExchangeShaped(v.elems[k])
  }

  /** The exchanges a run of members sets: those of the last array, or else the given ones. */
  function Decided(ms: seq<Member>, otherwise: seq<Recorded>): seq<Recorded>
    requires TopMembersShaped(ms)
  {
    var k := LastArray(ms, |ms|);
    if k < |ms| then
      assert TopMemberShaped(ms[k]);
      ExchangesMeaning(ms[k].value.elems)
    else otherwise
  }

  lemma FieldsDecided(ms: seq<Member>, tape: Tape)
    requires TopMembersShaped(ms)
    ensures TopFields(ms, tape).exchanges == Decided(ms, tape.exchanges)
  {
    var k := LastArray(ms, |ms|);
    if k < |ms| {
      LastArrayWins(ms, k, tape);
    } else {
      NoArrayKeeps(ms, tape);
    }
  }

  // ---- unknown members with nested values ---------------------------------------------------------

  /** With objects under unknown keys the loader rebuilds a recording exactly when it is what the last exchanges array
      of the spliced document means, or it is empty and there is no such array. */
  lemma LoaderReadsSpliced(json: string, v: Value, xs: seq<Recorded>)
    requires LooseDocument(v) && SpellsValue(json, v)
    ensures LoadText(json).Some?
    ensures LoadText(json).value.exchanges == xs <==> Decided(Splice(v.members), []) == xs
  {
    LoadTextMeaning(json, v);
    FieldsDecided(Splice(v.members), EMPTY_TAPE);
  }

  /** In particular when the spliced document represents the recording. */
  lemma LoaderReadsRepresented(json: string, v: Value, xs: seq<Recorded>)
    requires LooseDocument(v) && RepresentsRecording(Obj(Splice(v.members)), xs) && SpellsValue(json, v)
    ensures LoadText(json).Some? && LoadText(json).value.exchanges == xs
  {
    var ms := Splice(v.members);
    var i: nat :| Unique(ms, "exchanges", i) && i < |ms| && RepresentsExchanges(ms[i].value, xs);
    TopFieldsAt(ms, EMPTY_TAPE, i, xs);
    LoadTextMeaning(json, v);
  }

  lemma {:induction false} SpliceAppend(a: seq<Member>, b: seq<Member>)
    requires LooseMembers(a) && LooseMembers(b) && LooseMembers(a + b)
    ensures Splice(a + b) == Splice(a) + Splice(b)
    decreases |a|
  {
    if a == [] {
      assert a + b == b;
    } else {
      var all, rest := a + b, a[1..] + b;
      assert LooseMember(a[0]);
      assert all[0] == a[0] && all[1..] == rest;
      SpliceAppend(a[1..], b);
      assert Splice(all) == SpliceMember(a[0]) + Splice(rest);
      assert Splice(a) == SpliceMember(a[0]) + Splice(a[1..]);
    }
  }

  /** One exchanges array followed by more members: these decide, if they contain an array, and it otherwise. */
  lemma ArrayThen(m: Member, after: seq<Member>, tape: Tape)
    requires TopMemberShaped(m) && m.value.Arr? && TopMembersShaped(after)
    ensures TopFields([m] + after, tape).exchanges == Decided(after, ExchangesMeaning(m.value.elems))
  {
    var ms := [m] + after;
    assert ms[0] == m && ms[1..] == after;
    FieldsDecided(after, TopStep(m, tape));
  }

  lemma SplitAt<T>(s: seq<T>, i: nat)
    requires i < |s|
    ensures s[..i] + s[i..] == s && s[i..][0] == s[i] && s[i..][1..] == s[i + 1..]
  {
  }

  lemma SpliceParts(ms: seq<Member>, i: nat)
    requires LooseMembers(ms) && i < |ms| && TopMemberShaped(ms[i])
    ensures LooseMembers(ms[..i]) && LooseMembers(ms[i + 1..])
    ensures Splice(ms) == Splice(ms[..i]) + ([ms[i]] + Splice(ms[i + 1..]))
  {
    var before, rest := ms[..i], ms[i..];
    SplitAt(ms, i);
    SpliceAppend(before, rest);
  }

  /** An exchanges array at position `i` and the members after it decide, whatever stands before. */
  lemma MembersDecide(ms: seq<Member>, i: nat)
    requires LooseMembers(ms) && i < |ms| && TopMemberShaped(ms[i]) && ms[i].value.Arr?
    ensures LooseMembers(ms[i + 1..])
    ensures TopFields(Splice(ms), EMPTY_TAPE).exchanges == Decided(Splice(ms[i + 1..]), ExchangesMeaning(ms[i].value.elems))
  {
    SpliceParts(ms, i);
    DecidesBehind(Splice(ms[..i]), ms[i], Splice(ms[i + 1..]));
  }

  lemma DecidesBehind(before: seq<Member>, m: Member, after: seq<Member>)
    requires TopMembersShaped(before) && TopMembersShaped(after) && TopMemberShaped(m) && m.value.Arr?
    ensures TopMembersShaped(before + ([m] + after))
    ensures TopFields(before + ([m] + after), EMPTY_TAPE).exchanges == Decided(after, ExchangesMeaning(m.value.elems))
  {
    TopFieldsAppend(before, [m] + after, EMPTY_TAPE);
    ArrayThen(m, after, TopFields(before, EMPTY_TAPE));
  }

  lemma DecidedIff(ms: seq<Member>, otherwise: seq<Recorded>)
    requires TopMembersShaped(ms)
    ensures var k := LastArray(ms, |ms|);
            Decided(ms, otherwise) == otherwise
            <==> k == |ms| || (ArrayShaped(ms[k].value) && ExchangesMeaning(ms[k].value.elems) == otherwise)
  {
    var k := LastArray(ms, |ms|);
    if k < |ms| {
      assert TopMemberShaped(ms[k]);
    }
  }

  /** A document's own exchanges array at position `i`, whatever stands before it, is what the loader reads exactly
      when the members after it, spliced, contain no array or the last one they contain means the same. */
  lemma OwnExchangesSurviveIff(json: string, v: Value, i: nat)
    requires LooseDocument(v) && SpellsValue(json, v)
    requires i < |v.members| && v.members[i].value.Arr?
    ensures LooseMember(v.members[i]) && TopMemberShaped(v.members[i]) && LooseMembers(v.members[i + 1..])
    ensures LoadText(json).Some?
    ensures var own := ExchangesMeaning(v.members[i].value.elems);
            var after := Splice(v.members[i + 1..]);
            var k := LastArray(after, |after|);
            LoadText(json).value.exchanges == own
            <==> k == |after| || (ArrayShaped(after[k].value) && ExchangesMeaning(after[k].value.elems) == own)
  {
    var m := v.members[i];
    assert LooseMember(m) && TopMemberShaped(m);
    MembersDecide(v.members, i);
    LoadTextMeaning(json, v);
    DecidedIff(Splice(v.members[i + 1..]), ExchangesMeaning(m.value.elems));
  }

  /** An exchanges array nested in an earlier unknown object is displaced by the document's own, so it does no harm. */
  lemma NestedBeforeIsDisplaced(json: string, xs: seq<Value>, ys: seq<Value>)
    requires forall i :: 0 <= i < |xs| ==> ExchangeShaped(xs[i])
    requires forall i :: 0 <= i < |ys| ==> ExchangeShaped(ys[i])
    ensures var doc := Obj([Member("extra", Obj([Member("exchanges", Arr(ys))])), Member("exchanges", Arr(xs))]);
            SpellsValue(json, doc) ==> LoadText(json).Some? && LoadText(json).value.exchanges == ExchangesMeaning(xs)
  {
    var own, inner := Member("exchanges", Arr(xs)), Member("exchanges", Arr(ys));
    var extra := Member("extra", Obj([inner]));
    var doc := Obj([extra, own]);
    if SpellsValue(json, doc) {
      assert TopMemberShaped(own) && TopMemberShaped(inner) && LooseMember(own) && LooseMember(inner);
      assert LooseMembers([inner]) && LooseMember(extra);
      OwnExchangesSurviveIff(json, doc, 1);
      assert doc.members[2..] == [];
    }
  }

  /** But an exchanges array nested in a later unknown object displaces the document's own exchanges. */
  lemma NestedExchangesDisplace(json: string, xs: seq<Value>, ys: seq<Value>)
    requires forall i :: 0 <= i < |xs| ==> ExchangeShaped(xs[i])
    requires forall i :: 0 <= i < |ys| ==> ExchangeShaped(ys[i])
    ensures var doc := Obj([Member("exchanges", Arr(xs)), Member("extra", Obj([Member("exchanges", Arr(ys))]))]);
            SpellsValue(json, doc) ==> LoadText(json).Some? && LoadText(json).value.exchanges == ExchangesMeaning(ys)
  {
    var own, inner := Member("exchanges", Arr(xs)), Member("exchanges", Arr(ys));
    var extra := Member("extra", Obj([inner]));
    var ms := [own, extra];
    assert TopMemberShaped(own) && TopMemberShaped(inner);
    SpliceShaped([inner]);
    assert !TopMemberShaped(extra) && LooseMember(extra);
    assert ms[1..] == [extra] && ms[1..][1..] == [];
    assert Splice([extra]) == [inner] + [];
    assert Splice(ms) == [own] + ([inner] + []) == [own, inner];
    assert [own, inner][1..] == [inner] && [inner][1..] == [];
    var tape := TopStep(own, EMPTY_TAPE);
    assert TopFields([own, inner], EMPTY_TAPE) == TopFields([inner], tape);
    assert TopFields([inner], tape) == TopStep(inner, tape);
    if SpellsValue(json, Obj(ms)) {
      LoadTextMeaning(json, Obj(ms));
    }
  }
}
