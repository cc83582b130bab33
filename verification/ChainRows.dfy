/** Rows of the audit hash chain, and what their last hash gives away about tampering. */
module ChainRows {
  import opened Bytes
  import opened JsStrings
  import opened Json
  import CanonicalJson
  import JsonReader
  import Hex

  datatype AuditEvent = AuditEvent(
    id: JsString,
    tenantId: Option<JsString>,
    actorUserId: Option<JsString>,
    actorDeviceId: Option<JsString>,
    category: JsString,
    action: JsString,
    targetType: Option<JsString>,
    targetId: Option<JsString>,
    payload: Json,
    createdAt: JsString)

  datatype Row = Row(event: AuditEvent, sequenceNum: nat, prevHash: JsString, thisHash: JsString)

  function ZeroDigit(i: nat): Unit {
    0x30
  }

  function ZeroDigits(n: nat): (r: JsString)
    ensures |r| == n && forall i :: 0 <= i < n ==> r[i] == 0x30
  {
    seq(n, i requires 0 <= i < n => ZeroDigit(i))
  }

  /** CHAIN_GENESIS_HEX. */
  function Genesis(): JsString {
    ZeroDigits(64)
  }

  function OrNull(s: Option<JsString>): Json {
    if s.Some? then Str(s.value) else Null
  }

  /** The fixed-shape view of an event that is hashed. */
  function EventView(event: AuditEvent): Json {
    Obj([
      Field(Lit("id"), Str(event.id)),
      Field(Lit("tenant_id"), OrNull(event.tenantId)),
      Field(Lit("actor_user_id"), OrNull(event.actorUserId)),
      Field(Lit("actor_device_id"), OrNull(event.actorDeviceId)),
      Field(Lit("category"), Str(event.category)),
      Field(Lit("action"), Str(event.action)),
      Field(Lit("target_type"), OrNull(event.targetType)),
      Field(Lit("target_id"), OrNull(event.targetId)),
      Field(Lit("payload"), event.payload),
      Field(Lit("created_at"), Str(event.createdAt))])
  }

  function EventBytes(event: AuditEvent): Result<Bytes, CanonicalJson.JsonError> {
    CanonicalJson.CanonicalBytes(EventView(event))
  }

  function ChainInput(prevHash: JsString, event: AuditEvent): Result<Bytes, CanonicalJson.JsonError> {
    match EventBytes(event)
    case Err(e) => Err(e)
    case Ok(bytes) => Ok(Hex.FromHex(prevHash) + bytes)
  }

  function ChainHash(h: HashFn, prevHash: JsString, event: AuditEvent): Result<JsString, CanonicalJson.JsonError> {
    match ChainInput(prevHash, event)
    case Err(e) => Err(e)
    case Ok(input) => Ok(Hex.ToHex(h(input)))
  }

  function LastHash(rows: seq<Row>): JsString {
    if rows == [] then Genesis() else rows[|rows| - 1].thisHash
  }

  /** A row that may follow the given ones. */
  predicate Follows(h: HashFn, tenant: JsString, rows: seq<Row>, row: Row) {
    && row.sequenceNum == |rows| + 1
    && row.prevHash == LastHash(rows)
    && ChainHash(h, row.prevHash, row.event) == Ok(row.thisHash)
    && row.event.tenantId == Some(tenant)
  }

  /** Numbered from one without gaps, linked, and every hash recomputes. */
  predicate WellFormedChain(h: HashFn, tenant: JsString, rows: seq<Row>)
    decreases |rows|
  {
    rows == []
    || (WellFormedChain(h, tenant, rows[..|rows| - 1]) && Follows(h, tenant, rows[..|rows| - 1], rows[|rows| - 1]))
  }

  lemma ChainAppend(h: HashFn, tenant: JsString, rows: seq<Row>, row: Row)
    requires WellFormedChain(h, tenant, rows) && Follows(h, tenant, rows, row)
    ensures WellFormedChain(h, tenant, rows + [row])
  {
    assert (rows + [row])[..|rows|] == rows;
  }

  /** What well-formedness says of each row. */
  lemma {:induction false} RowMeaning(h: HashFn, tenant: JsString, rows: seq<Row>, i: nat)
    requires WellFormedChain(h, tenant, rows) && i < |rows|
    ensures rows[i].sequenceNum == i + 1
    ensures rows[i].prevHash == if i == 0 then Genesis() else rows[i - 1].thisHash
    ensures ChainHash(h, rows[i].prevHash, rows[i].event) == Ok(rows[i].thisHash)
    ensures rows[i].event.tenantId == Some(tenant)
    decreases |rows|
  {
    hide ChainHash;
    if i < |rows| - 1 {
      RowMeaning(h, tenant, rows[..|rows| - 1], i);
    }
  }

  lemma FrontAndLast(h: HashFn, tenant: JsString, rows: seq<Row>)
    requires WellFormedChain(h, tenant, rows) && rows != []
    ensures WellFormedChain(h, tenant, rows[..|rows| - 1]) && rows[|rows| - 1].sequenceNum == |rows|
  {
    hide ChainHash;
  }

  // Tampering.

  function RowInput(row: Row): Bytes {
    match ChainInput(row.prevHash, row.event) case Err(_) => [] case Ok(input) => input
  }

  datatype Finding = Same | Collision(x: Bytes, y: Bytes) | ZeroPreimage(z: Bytes)

  /** Compares two chains from their last rows back to the first difference in what was hashed. */
  function Compare(a: seq<Row>, b: seq<Row>): Finding
    decreases |a|
  {
    if a == [] && b == [] then Same
    else if a == [] then ZeroPreimage(RowInput(b[|b| - 1]))
    else if b == [] then ZeroPreimage(RowInput(a[|a| - 1]))
    else if RowInput(a[|a| - 1]) != RowInput(b[|b| - 1]) then Collision(RowInput(a[|a| - 1]), RowInput(b[|b| - 1]))
    else Compare(a[..|a| - 1], b[..|b| - 1])
  }

  predicate HashedIn(x: Bytes, rows: seq<Row>) {
    exists i :: 0 <= i < |rows| && RowInput(rows[i]) == x
  }

  predicate SameBytes(a: seq<Row>, b: seq<Row>) {
    |a| == |b| && forall i :: 0 <= i < |a| ==> EventBytes(a[i].event) == EventBytes(b[i].event)
  }

  /** The digest behind the last hash. */
  function LastDigest(h: HashFn, rows: seq<Row>): Digest {
    if rows == [] then ZERO_DIGEST else h(RowInput(rows[|rows| - 1]))
  }

  lemma {:induction false} ZerosInHex(n: nat)
    ensures Hex.ToHex(Zeros(n)) == ZeroDigits(2 * n)
  {
    if n > 0 {
      ZerosInHex(n - 1);
      assert Zeros(n)[1..] == Zeros(n - 1);
      assert Hex.ToHex(Zeros(n)) == [0x30, 0x30] + ZeroDigits(2 * (n - 1));
    }
  }

  /** The genesis string is the hexadecimal form of 32 zero bytes. */
  lemma GenesisIsZero()
    ensures Genesis() == Hex.ToHex(ZERO_DIGEST)
  {
    ZerosInHex(32);
  }

  lemma RowHashes(h: HashFn, row: Row)
    requires ChainHash(h, row.prevHash, row.event) == Ok(row.thisHash)
    ensures row.thisHash == Hex.ToHex(h(RowInput(row)))
  {
    hide EventBytes, Hex.ToHex, Hex.FromHex;
  }

  lemma LastHashShape(h: HashFn, tenant: JsString, rows: seq<Row>)
    requires WellFormedChain(h, tenant, rows)
    ensures LastHash(rows) == Hex.ToHex(LastDigest(h, rows))
    ensures Hex.FromHex(LastHash(rows)) == LastDigest(h, rows)
  {
    hide ChainHash, RowInput, Hex.ToHex, Hex.FromHex;
    Hex.HexRoundTrip(LastDigest(h, rows));
    if rows == [] {
      GenesisIsZero();
    } else {
      RowHashes(h, rows[|rows| - 1]);
    }
  }

  lemma SplitInput(prev: JsString, prev': JsString, event: AuditEvent, event': AuditEvent)
    requires |Hex.FromHex(prev)| == 32 == |Hex.FromHex(prev')|
    requires EventBytes(event).Ok? && EventBytes(event').Ok?
    requires ChainInput(prev, event) == ChainInput(prev', event')
    ensures Hex.FromHex(prev) == Hex.FromHex(prev') && EventBytes(event) == EventBytes(event')
  {
    hide EventBytes, Hex.FromHex;
    var x, y := ChainInput(prev, event).value, ChainInput(prev', event').value;
    assert x[..32] == Hex.FromHex(prev) && y[..32] == Hex.FromHex(prev');
    assert x[32..] == EventBytes(event).value && y[32..] == EventBytes(event').value;
  }

  lemma LastRowHashed(h: HashFn, tenant: JsString, rows: seq<Row>)
    requires WellFormedChain(h, tenant, rows) && rows != []
    ensures var last, front := rows[|rows| - 1], rows[..|rows| - 1];
            && WellFormedChain(h, tenant, front) && last.prevHash == LastHash(front)
            && EventBytes(last.event).Ok? && ChainInput(last.prevHash, last.event) == Ok(RowInput(last))
            && HashedIn(RowInput(last), rows)
  {
    hide EventBytes, Hex.ToHex, Hex.FromHex;
  }

  lemma HashedInFront(x: Bytes, rows: seq<Row>)
    requires rows != [] && HashedIn(x, rows[..|rows| - 1])
    ensures HashedIn(x, rows)
  {
    hide RowInput;
    var i :| 0 <= i < |rows| - 1 && RowInput(rows[..|rows| - 1][i]) == x;
    assert rows[i] == rows[..|rows| - 1][i];
  }

  lemma SameLastRow(h: HashFn, t: JsString, u: JsString, a: seq<Row>, b: seq<Row>)
    requires WellFormedChain(h, t, a) && WellFormedChain(h, u, b) && a != [] && b != []
    requires RowInput(a[|a| - 1]) == RowInput(b[|b| - 1])
    ensures LastHash(a[..|a| - 1]) == LastHash(b[..|b| - 1])
    ensures EventBytes(a[|a| - 1].event) == EventBytes(b[|b| - 1].event)
  {
    hide *;
    LastRowHashed(h, t, a);
    LastRowHashed(h, u, b);
    LastHashShape(h, t, a[..|a| - 1]);
    LastHashShape(h, u, b[..|b| - 1]);
    SplitInput(a[|a| - 1].prevHash, b[|b| - 1].prevHash, a[|a| - 1].event, b[|b| - 1].event);
  }

  lemma SameBytesExtend(a: seq<Row>, b: seq<Row>)
    requires a != [] && b != []
    requires SameBytes(a[..|a| - 1], b[..|b| - 1])
    requires EventBytes(a[|a| - 1].event) == EventBytes(b[|b| - 1].event)
    ensures SameBytes(a, b)
  {
    hide EventBytes;
    var x, y := a[..|a| - 1], b[..|b| - 1];
    forall i | 0 <= i < |a| ensures EventBytes(a[i].event) == EventBytes(b[i].event) {
      assert i < |a| - 1 ==> a[i] == x[i] && b[i] == y[i];
    }
  }

  lemma SameHexSameDigest(d: Digest, e: Digest)
    requires Hex.ToHex(d) == Hex.ToHex(e)
    ensures d == e
  {
    Hex.HexRoundTrip(d);
    Hex.HexRoundTrip(e);
  }

  /** The verdict on two chains, in terms of what was hashed for them. */
  predicate Explained(h: HashFn, a: seq<Row>, b: seq<Row>, finding: Finding) {
    match finding
    case Same => SameBytes(a, b)
    case Collision(x, y) => Collides(h, x, y) && HashedIn(x, a) && HashedIn(y, b)
    case ZeroPreimage(z) => |a| != |b| && h(z) == ZERO_DIGEST && (HashedIn(z, a) || HashedIn(z, b))
  }

  lemma ExplainedInFront(h: HashFn, a: seq<Row>, b: seq<Row>, finding: Finding)
    requires a != [] && b != [] && !finding.Same?
    requires Explained(h, a[..|a| - 1], b[..|b| - 1], finding)
    ensures Explained(h, a, b, finding)
  {
    hide RowInput, HashedIn;
    match finding
    case Collision(x, y) =>
      HashedInFront(x, a);
      HashedInFront(y, b);
    case ZeroPreimage(z) =>
      if HashedIn(z, a[..|a| - 1]) { HashedInFront(z, a); } else { HashedInFront(z, b); }
  }

  lemma DifferentLastInputs(h: HashFn, t: JsString, u: JsString, a: seq<Row>, b: seq<Row>)
    requires WellFormedChain(h, t, a) && WellFormedChain(h, u, b) && a != [] && b != []
    requires LastHash(a) == LastHash(b) && RowInput(a[|a| - 1]) != RowInput(b[|b| - 1])
    ensures Explained(h, a, b, Collision(RowInput(a[|a| - 1]), RowInput(b[|b| - 1])))
  {
    hide WellFormedChain, LastHash, RowInput, HashedIn, Hex.ToHex, Hex.FromHex;
    LastHashShape(h, t, a);
    LastHashShape(h, u, b);
    SameHexSameDigest(h(RowInput(a[|a| - 1])), h(RowInput(b[|b| - 1])));
    LastRowHashed(h, t, a);
    LastRowHashed(h, u, b);
  }

  lemma HashOfNothing(h: HashFn, t: JsString, rows: seq<Row>)
    requires WellFormedChain(h, t, rows) && rows != [] && LastHash(rows) == Genesis()
    ensures h(RowInput(rows[|rows| - 1])) == ZERO_DIGEST && HashedIn(RowInput(rows[|rows| - 1]), rows)
  {
    hide WellFormedChain, LastHash, RowInput, HashedIn, Hex.ToHex, Hex.FromHex;
    LastHashShape(h, t, rows);
    GenesisIsZero();
    SameHexSameDigest(h(RowInput(rows[|rows| - 1])), ZERO_DIGEST);
    LastRowHashed(h, t, rows);
  }

  /**
    Two chains with one last hash hold the same event bytes row by row, unless two row inputs among
    them collide, or the chains differ in length and some row input among them hashes to zero.
    */
  lemma {:induction false} TamperEvidence(h: HashFn, t: JsString, u: JsString, a: seq<Row>, b: seq<Row>)
    requires WellFormedChain(h, t, a) && WellFormedChain(h, u, b) && LastHash(a) == LastHash(b)
    ensures Explained(h, a, b, Compare(a, b))
    ensures |a| == |b| ==> !Compare(a, b).ZeroPreimage?
    decreases |a|
  {
    hide WellFormedChain, RowInput, HashedIn, EventBytes;
    if a == [] && b == [] {
    } else if a == [] {
      HashOfNothing(h, u, b);
    } else if b == [] {
      HashOfNothing(h, t, a);
    } else if RowInput(a[|a| - 1]) != RowInput(b[|b| - 1]) {
      DifferentLastInputs(h, t, u, a, b);
    } else {
      LastRowHashed(h, t, a);
      LastRowHashed(h, u, b);
      SameLastRow(h, t, u, a, b);
      TamperEvidence(h, t, u, a[..|a| - 1], b[..|b| - 1]);
      if Compare(a, b).Same? { SameBytesExtend(a, b); } else { ExplainedInFront(h, a, b, Compare(a, b)); }
    }
  }

  // What equal event bytes mean for the events.

  predicate SameEvent(a: AuditEvent, b: AuditEvent) {
    a.(payload := Null) == b.(payload := Null) && CanonicalJson.SameValue(a.payload, b.payload)
  }

  lemma ViewNames(event: AuditEvent)
    requires HasDistinctNames(event.payload)
    ensures HasDistinctNames(EventView(event))
  {
    hide CanonicalJson.SameValue;
    var fields := EventView(event).fields;
    assert fields[1].name[2] != fields[7].name[2];
  }

  /** The member with a given name is matched by the member with that name. */
  lemma SameMember(f: seq<Field>, g: seq<Field>, i: nat)
    requires i < |f| == |g| && DistinctNames(g) && f[i].name == g[i].name && CanonicalJson.SameIn(f[i], g)
    ensures CanonicalJson.SameValue(f[i].value, g[i].value)
  {
    hide CanonicalJson.SameValue;
    var j :| 0 <= j < |g| && f[i].name == g[j].name && CanonicalJson.SameValue(f[i].value, g[j].value);
  }

  lemma SameOptional(s: Option<JsString>, t: Option<JsString>)
    requires CanonicalJson.SameValue(OrNull(s), OrNull(t))
    ensures s == t
  {
  }

  lemma ViewMembers(a: AuditEvent, b: AuditEvent, i: nat)
    requires i < 10 && DistinctNames(EventView(b).fields)
    requires CanonicalJson.SameValue(EventView(a), EventView(b))
    ensures CanonicalJson.SameValue(EventView(a).fields[i].value, EventView(b).fields[i].value)
  {
    SameMember(EventView(a).fields, EventView(b).fields, i);
  }

  lemma SameText(s: JsString, t: JsString)
    requires CanonicalJson.SameValue(Str(s), Str(t))
    ensures s == t
  {
  }

  lemma SameViewSameEvent(a: AuditEvent, b: AuditEvent)
    requires CanonicalJson.SameValue(EventView(a), EventView(b)) && HasDistinctNames(EventView(b))
    ensures SameEvent(a, b)
  {
    hide CanonicalJson.SameValue, OrNull;
    ViewMembers(a, b, 0);
    ViewMembers(a, b, 1);
    ViewMembers(a, b, 2);
    ViewMembers(a, b, 3);
    ViewMembers(a, b, 4);
    ViewMembers(a, b, 5);
    ViewMembers(a, b, 6);
    ViewMembers(a, b, 7);
    ViewMembers(a, b, 9);
    ViewMembers(a, b, 8);
    SameText(a.id, b.id);
    SameOptional(a.tenantId, b.tenantId);
    SameOptional(a.actorUserId, b.actorUserId);
    SameOptional(a.actorDeviceId, b.actorDeviceId);
    SameText(a.category, b.category);
    SameText(a.action, b.action);
    SameOptional(a.targetType, b.targetType);
    SameOptional(a.targetId, b.targetId);
    SameText(a.createdAt, b.createdAt);
  }

  lemma ViewBytes(event: AuditEvent)
    ensures EventBytes(event) == CanonicalJson.CanonicalBytes(EventView(event))
    ensures EventBytes(event).Ok? ==> CanonicalJson.Serialisable(EventView(event))
  {
    hide EventView, CanonicalJson.Canonicalize, CanonicalJson.Serialisable, CanonicalJson.Normal, CanonicalJson.Write;
    CanonicalJson.CanonicalizeWrites(EventView(event));
  }

  /** Equal event bytes mean equal events, up to key order in the payload. */
  lemma EventBytesDecide(a: AuditEvent, b: AuditEvent)
    requires HasDistinctNames(a.payload) && HasDistinctNames(b.payload)
    requires EventBytes(a).Ok? && EventBytes(a) == EventBytes(b)
    ensures SameEvent(a, b)
  {
    hide EventBytes, EventView, SameEvent, CanonicalJson.SameValue, CanonicalJson.CanonicalBytes, CanonicalJson.Serialisable;
    ViewNames(a);
    ViewNames(b);
    ViewBytes(a);
    ViewBytes(b);
    JsonReader.CanonicalBytesDecide(EventView(a), EventView(b));
    SameViewSameEvent(a, b);
  }

  // What is hashed, as a reader finds it.

  /** A reader of the event bytes finds each part of the event under its name. */
  lemma EventBytesRead(event: AuditEvent)
    requires EventBytes(event).Ok?
    ensures var v := JsonReader.ParseBytes(EventBytes(event).value);
            && v.Some? && v.value.Obj?
            && Lookup(v.value.fields, Lit("id")) == Str(event.id)
            && Lookup(v.value.fields, Lit("tenant_id")) == OrNull(event.tenantId)
            && Lookup(v.value.fields, Lit("actor_user_id")) == OrNull(event.actorUserId)
            && Lookup(v.value.fields, Lit("actor_device_id")) == OrNull(event.actorDeviceId)
            && Lookup(v.value.fields, Lit("category")) == Str(event.category)
            && Lookup(v.value.fields, Lit("action")) == Str(event.action)
            && Lookup(v.value.fields, Lit("target_type")) == OrNull(event.targetType)
            && Lookup(v.value.fields, Lit("target_id")) == OrNull(event.targetId)
            && Lookup(v.value.fields, Lit("payload")) == CanonicalJson.Normal(event.payload)
            && Lookup(v.value.fields, Lit("created_at")) == Str(event.createdAt)
  {
    hide *;
    ViewBytes(event);
    ViewValues(event);
    FieldRead(event, 0);
    FieldRead(event, 1);
    FieldRead(event, 2);
    FieldRead(event, 3);
    FieldRead(event, 4);
    FieldRead(event, 5);
    FieldRead(event, 6);
    FieldRead(event, 7);
    FieldRead(event, 8);
    FieldRead(event, 9);
  }

  lemma DistinctViewNames(event: AuditEvent)
    ensures EventView(event).Obj? && |EventView(event).fields| == 10 && DistinctNames(EventView(event).fields)
  {
    var fields := EventView(event).fields;
    assert fields[1].name[2] != fields[7].name[2];
  }

  lemma FieldRead(event: AuditEvent, i: nat)
    requires EventBytes(event).Ok? && i < 10
    ensures EventView(event).Obj? && |EventView(event).fields| == 10
    ensures var v := JsonReader.ParseBytes(EventBytes(event).value);
            && v.Some? && v.value.Obj?
            && Lookup(v.value.fields, EventView(event).fields[i].name) == CanonicalJson.Normal(EventView(event).fields[i].value)
  {
    hide *;
    ViewBytes(event);
    DistinctViewNames(event);
    var fields := EventView(event).fields;
    ViewIs(event);
    JsonReader.PropertiesRead(fields, fields[i].name);
    JsonReader.LookupIn(fields, fields[i]);
  }

  lemma ViewIs(event: AuditEvent)
    ensures EventView(event).Obj? && EventView(event) == Obj(EventView(event).fields)
  {
    hide EventView;
    DistinctViewNames(event);
  }

  /** The names and the values of the view, one by one. */
  lemma ViewValues(event: AuditEvent)
    ensures EventView(event).Obj? && |EventView(event).fields| == 10
    ensures var f := EventView(event).fields;
            && f[0].name == Lit("id") && CanonicalJson.Normal(f[0].value) == Str(event.id)
            && f[1].name == Lit("tenant_id") && CanonicalJson.Normal(f[1].value) == OrNull(event.tenantId)
            && f[2].name == Lit("actor_user_id") && CanonicalJson.Normal(f[2].value) == OrNull(event.actorUserId)
            && f[3].name == Lit("actor_device_id") && CanonicalJson.Normal(f[3].value) == OrNull(event.actorDeviceId)
            && f[4].name == Lit("category") && CanonicalJson.Normal(f[4].value) == Str(event.category)
            && f[5].name == Lit("action") && CanonicalJson.Normal(f[5].value) == Str(event.action)
            && f[6].name == Lit("target_type") && CanonicalJson.Normal(f[6].value) == OrNull(event.targetType)
            && f[7].name == Lit("target_id") && CanonicalJson.Normal(f[7].value) == OrNull(event.targetId)
            && f[8].name == Lit("payload") && CanonicalJson.Normal(f[8].value) == CanonicalJson.Normal(event.payload)
            && f[9].name == Lit("created_at") && CanonicalJson.Normal(f[9].value) == Str(event.createdAt)
  {
  }

  /** The input of a row is the 32 bytes of the previous hash and then the event bytes. */
  lemma RowInputReads(prevHash: JsString, event: AuditEvent)
    requires |Hex.FromHex(prevHash)| == 32 && ChainInput(prevHash, event).Ok?
    ensures var x := ChainInput(prevHash, event).value;
            |x| >= 32 && x[..32] == Hex.FromHex(prevHash) && EventBytes(event) == Ok(x[32..])
  {
    hide EventBytes, Hex.FromHex;
  }
}
