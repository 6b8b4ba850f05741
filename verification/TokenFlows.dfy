/** The device-code and refresh-token flows (section 3.5 of RFC 8628, section 6 of RFC 6749) of
    internal/services/entra/token.go over the tables of internal/store/directory.go. Hashing, the
    directory's password check, Conditional Access and minting are parameters. */
module TokenFlows {
  import opened Outcomes
  import opened Text
  import opened Rfc3339
  import opened Audience

  /** `expires` is the second whose RFC 3339 string the row stores. */
  datatype Device = Device(principal: string, userCode: string, approved: bool, expires: nat)
  datatype RefreshRow = RefreshRow(principal: string, audience: string, expires: nat)

  /** device_codes and refresh_tokens, each keyed by the hash of its code or token. */
  datatype Tables = Tables(devices: map<string, Device>, refreshes: map<string, RefreshRow>)

  const DEVICE_TTL: nat := 15 * 60 * 1_000_000_000
  const REFRESH_TTL: nat := 24 * 60 * 60 * 1_000_000_000

  datatype Reply =
    | Issued(principal: string, audience: string, refresh: string)
    | Done
    | Refused(error: string)

  /** The answer to a device-code request. */
  datatype DeviceStart = DeviceStart(deviceCode: string, userCode: string, expiresIn: nat, interval: nat)

  datatype Result = Result(tables: Tables, reply: Reply)

  function UserKey(userCode: string): string {
    ToUpper(TrimSpace(userCode))
  }

  /** A stored time that time.Parse rejects (a year of five digits) never expires. */
  predicate Expired(expires: nat, now: Instant) {
    Year(expires) <= 9999 && now > expires * SECOND
  }

  /** The WHERE clause of ApproveDeviceCode. */
  predicate Pending(d: Device, userKey: string, now: Instant) {
    d.userCode == userKey && !d.approved && Less(Stamped(now), Format(d.expires))
  }

  function Bound(d: Device, userKey: string, principal: string, now: Instant): Device {
    if Pending(d, userKey, now) then d.(principal := principal, approved := true) else d
  }

  function BindAll(ds: map<string, Device>, userKey: string, principal: string, now: Instant): map<string, Device> {
    map h | h in ds :: Bound(ds[h], userKey, principal, now)
  }

  predicate SomePending(ds: map<string, Device>, userKey: string, now: Instant) {
    exists h :: h in ds && Pending(ds[h], userKey, now)
  }

  // ------------------------------ What each request does ------------------------------

  /** What a token request brings besides its grant: the audience asked for, whether Conditional
      Access blocks it, whether minting works, and the refresh token drawn for it with its hash. */
  datatype Mint = Mint(requested: string, blocked: bool, mints: bool, token: string, key: string)

  /** What a request asks of the tables. */
  datatype Act =
    | Refuse(error: string)
    | Register(device: string, userKey: string, expires: nat)
    | Bind(userKey: string, principal: string, now: Instant)
    | Exchange(device: string, mint: Mint, now: Instant)
    | Redeem(refresh: string, mint: Mint, now: Instant)
    | Grant(principal: string, mint: Mint, now: Instant)

  /** writeToken with a refresh token. */
  function Written(t: Tables, principal: string, audience: string, m: Mint, now: Instant): Result {
    if m.blocked then Result(t, Refused("invalid_grant"))
    else if !m.mints then Result(t, Refused("server_error"))
    else
      var row := RefreshRow(principal, TrimSpace(audience), Sec(now + REFRESH_TTL));
      Result(t.(refreshes := t.refreshes[m.key := row]), Issued(principal, audience, m.token))
  }

  function Apply(t: Tables, act: Act): Result {
    match act
    case Refuse(error) => Result(t, Refused(error))
    case Register(h, userKey, expires) =>
      Result(t.(devices := t.devices[h := Device("", userKey, false, expires)]), Done)
    case Bind(userKey, principal, now) =>
      if userKey != "" && principal != "" && SomePending(t.devices, userKey, now)
      then Result(t.(devices := BindAll(t.devices, userKey, principal, now)), Done)
      else Result(t, Refused("invalid_grant"))
    case Exchange(h, m, now) =>
      if h !in t.devices || Expired(t.devices[h].expires, now) then Result(t, Refused("invalid_grant"))
      else if !t.devices[h].approved || t.devices[h].principal == "" then Result(t, Refused("authorization_pending"))
      else Written(t, t.devices[h].principal, m.requested, m, now)
    case Redeem(h, m, now) =>
      if h !in t.refreshes || Expired(t.refreshes[h].expires, now) then Result(t, Refused("invalid_grant"))
      else
        var stored := Normalize(t.refreshes[h].audience);
        if m.requested != "" && m.requested != stored then Result(t, Refused("invalid_grant"))
        else Written(t, t.refreshes[h].principal, stored, m, now)
    case Grant(principal, m, now) => Written(t, principal, m.requested, m, now)
  }

  // ------------------------------- Reading a request -------------------------------

  /** The form of a token request, with what is decided elsewhere and the token drawn. */
  datatype Form = Form(scope: string, resource: string, blocked: bool, mints: bool, drawn: string)

  /** tokenAudience */
  function Requested(f: Form): string {
    var audience := TrimSpace(f.scope);
    Normalize(if audience == "" then TrimSpace(f.resource) else audience)
  }

  function MintOf(hash: string -> string, f: Form): Mint {
    Mint(Requested(f), f.blocked, f.mints, f.drawn, hash(f.drawn))
  }

  predicate Blank(username: string, password: string) {
    TrimSpace(username) == "" || TrimSpace(password) == ""
  }

  /** A request as it arrives. What is drawn for it, and whom the directory knows by the user name
      and password given, comes with it. */
  datatype Request =
    | Start(code: string, drawn: string, now: Instant)
    | Approve(userCode: string, username: string, password: string, user: Option<string>, now: Instant)
    | ByDevice(code: string, form: Form, now: Instant)
    | ByRefresh(token: string, form: Form, now: Instant)
    | ByPassword(username: string, password: string, user: Option<string>, form: Form, now: Instant)

  /** The user code handed out for a start. */
  function HandedOut(drawn: string): string {
    ToUpper(drawn)
  }

  function ActOf(hash: string -> string, r: Request): Act {
    match r
    case Start(code, drawn, now) => Register(hash(code), UserKey(HandedOut(drawn)), Sec(now + DEVICE_TTL))
    case Approve(userCode, username, password, user, now) =>
      if TrimSpace(userCode) == "" || Blank(username, password) then Refuse("invalid_request")
      else if user.None? then Refuse("invalid_grant")
      else Bind(UserKey(userCode), TrimSpace(user.value), now)
    case ByDevice(code, f, now) =>
      if TrimSpace(code) == "" then Refuse("invalid_request") else Exchange(hash(TrimSpace(code)), MintOf(hash, f), now)
    case ByRefresh(token, f, now) =>
      if TrimSpace(token) == "" then Refuse("invalid_request") else Redeem(hash(TrimSpace(token)), MintOf(hash, f), now)
    case ByPassword(username, password, user, f, now) =>
      if Blank(username, password) || user.None? then Refuse("invalid_grant")
      else Grant(user.value, MintOf(hash, f), now)
  }

  function Serve(hash: string -> string, t: Tables, r: Request): Result {
    Apply(t, ActOf(hash, r))
  }

  // ---------------------------------- The store ----------------------------------

  class Store {
    const hash: string -> string
    var devices: map<string, Device>
    var refreshes: map<string, RefreshRow>

    constructor (h: string -> string)
      ensures hash == h && State() == Tables(map[], map[])
    {
      hash, devices, refreshes := h, map[], map[];
    }

    ghost function State(): Tables
      reads this
    {
      Tables(devices, refreshes)
    }

    method PutDeviceCode(code: string, userCode: string, exp: Instant)
      modifies this`devices
      ensures devices == old(devices)[hash(code) := Device("", UserKey(userCode), false, Sec(exp))]
    {
      devices := devices[hash(code) := Device("", ToUpper(TrimSpace(userCode)), false, Sec(exp))];
    }

    /** Binds the principal to every pending row of the user code. */
    method ApproveDeviceCode(userCode: string, principal: string, now: Instant) returns (bound: bool)
      modifies this`devices
      ensures var r := Apply(old(State()), Bind(UserKey(userCode), TrimSpace(principal), now));
              State() == r.tables && bound == r.reply.Done?
    {
      hide UserKey, TrimSpace, Less, Stamped, Format;
      var key, who := UserKey(userCode), TrimSpace(principal);
      if key == "" || who == "" { return false; }
      bound := exists h :: h in devices && Pending(devices[h], key, now);
      NoneBound(devices, key, who, now);
      devices := map h | h in devices :: Bound(devices[h], key, who, now);
    }

    method LookupDeviceCode(code: string, now: Instant) returns (found: Option<Device>)
      ensures var h := hash(code);
              found == if h in devices && !Expired(devices[h].expires, now) then Some(devices[h]) else None
    {
      var h := hash(code);
      if h !in devices { return None; }
      var row := devices[h];
      if Year(row.expires) <= 9999 && now > row.expires * SECOND { return None; }
      found := Some(row);
    }

    method PutRefreshToken(tokenHash: string, principal: string, audience: string, exp: Instant)
      modifies this`refreshes
      ensures refreshes == old(refreshes)[tokenHash := RefreshRow(principal, TrimSpace(audience), Sec(exp))]
    {
      refreshes := refreshes[tokenHash := RefreshRow(principal, TrimSpace(audience), Sec(exp))];
    }

    method LookupRefreshToken(tokenHash: string, now: Instant) returns (found: Option<RefreshRow>)
      ensures var h := tokenHash;
              found == if h in refreshes && !Expired(refreshes[h].expires, now) then Some(refreshes[h]) else None
    {
      if tokenHash !in refreshes { return None; }
      var row := refreshes[tokenHash];
      if Year(row.expires) <= 9999 && now > row.expires * SECOND { return None; }
      found := Some(row);
    }
  }

  lemma {:induction false} NoneBound(ds: map<string, Device>, key: string, who: string, now: Instant)
    ensures !SomePending(ds, key, now) ==> BindAll(ds, key, who, now) == ds
  {
  }

  lemma {:induction false} DeviceSeconds()
    ensures DEVICE_TTL / SECOND == 900
  {
  }

  // --------------------------------- The service ---------------------------------

  class Service {
    const store: Store

    constructor (s: Store)
      ensures store == s
    {
      store := s;
    }

    method WriteToken(principal: string, audience: string, m: Mint, now: Instant) returns (reply: Reply)
      modifies store
      ensures Result(store.State(), reply) == Written(old(store.State()), principal, audience, m, now)
    {
      if m.blocked { return Refused("invalid_grant"); }
      if !m.mints { return Refused("server_error"); }
      store.PutRefreshToken(m.key, principal, audience, now + REFRESH_TTL);
      reply := Issued(principal, audience, m.token);
    }

    /** Two tokens are drawn: the device code and the user code. */
    method HandleDeviceCode(code: string, drawn: string, now: Instant) returns (start: DeviceStart)
      modifies store
      ensures start == DeviceStart(code, HandedOut(drawn), 900, 5)
      ensures Result(store.State(), Done) == Serve(store.hash, old(store.State()), Start(code, drawn, now))
    {
      hide UserKey, ToUpper, Sec;
      DeviceSeconds();
      var userCode := ToUpper(drawn);
      store.PutDeviceCode(code, userCode, now + DEVICE_TTL);
      start := DeviceStart(code, userCode, DEVICE_TTL / SECOND, 5);
    }

    /** `user` is the directory user whose password the form gives, if it does. */
    method HandleDeviceApprove(userCode: string, username: string, password: string, user: Option<string>, now: Instant)
      returns (reply: Reply)
      modifies store
      ensures Result(store.State(), reply)
              == Serve(store.hash, old(store.State()), Approve(userCode, username, password, user, now))
    {
      hide TrimSpace, ToUpper;
      if TrimSpace(userCode) == "" || Blank(username, password) { return Refused("invalid_request"); }
      if user.None? { return Refused("invalid_grant"); }
      var bound := store.ApproveDeviceCode(userCode, user.value, now);
      reply := if bound then Done else Refused("invalid_grant");
    }

    method TokenDeviceCode(code: string, f: Form, now: Instant) returns (reply: Reply)
      modifies store
      ensures Result(store.State(), reply) == Serve(store.hash, old(store.State()), ByDevice(code, f, now))
    {
      hide TrimSpace, Requested, Blank, UserKey;
      if TrimSpace(code) == "" { return Refused("invalid_request"); }
      reply := ExchangeDevice(TrimSpace(code), MintOf(store.hash, f), now);
    }

    method ExchangeDevice(code: string, m: Mint, now: Instant) returns (reply: Reply)
      modifies store
      ensures Result(store.State(), reply) == Apply(old(store.State()), Exchange(store.hash(code), m, now))
    {
      var found := store.LookupDeviceCode(code, now);
      if found.None? { return Refused("invalid_grant"); }
      if !found.value.approved || found.value.principal == "" { return Refused("authorization_pending"); }
      reply := WriteToken(found.value.principal, m.requested, m, now);
    }

    method TokenRefresh(token: string, f: Form, now: Instant) returns (reply: Reply)
      modifies store
      ensures Result(store.State(), reply) == Serve(store.hash, old(store.State()), ByRefresh(token, f, now))
    {
      hide TrimSpace, Requested, Blank, UserKey;
      if TrimSpace(token) == "" { return Refused("invalid_request"); }
      reply := RedeemToken(store.hash(TrimSpace(token)), MintOf(store.hash, f), now);
    }

    method RedeemToken(tokenHash: string, m: Mint, now: Instant) returns (reply: Reply)
      modifies store
      ensures Result(store.State(), reply) == Apply(old(store.State()), Redeem(tokenHash, m, now))
    {
      var found := store.LookupRefreshToken(tokenHash, now);
      if found.None? { return Refused("invalid_grant"); }
      var stored := Normalize(found.value.audience);
      if m.requested != "" && m.requested != stored { return Refused("invalid_grant"); }
      reply := WriteToken(found.value.principal, stored, m, now);
    }

    method TokenPassword(username: string, password: string, user: Option<string>, f: Form, now: Instant)
      returns (reply: Reply)
      modifies store
      ensures Result(store.State(), reply)
              == Serve(store.hash, old(store.State()), ByPassword(username, password, user, f, now))
    {
      hide TrimSpace, Requested;
      if Blank(username, password) { return Refused("invalid_grant"); }
      if user.None? { return Refused("invalid_grant"); }
      var m := MintOf(store.hash, f);
      reply := WriteToken(user.value, m.requested, m, now);
    }
  }

  // ------------------------------------ Runs ------------------------------------

  function Run(t: Tables, acts: seq<Act>): Tables
    decreases |acts|
  {
    if acts == [] then t else Run(Apply(t, acts[0]).tables, acts[1..])
  }

  /** No code or token drawn for the request has the hash of one drawn before. */
  predicate Fresh(t: Tables, act: Act) {
    match act
    case Register(h, _, _) => h !in t.devices
    case Exchange(_, m, _) => m.key !in t.refreshes
    case Redeem(_, m, _) => m.key !in t.refreshes
    case Grant(_, m, _) => m.key !in t.refreshes
    case _ => true
  }

  predicate FreshRun(t: Tables, acts: seq<Act>)
    decreases |acts|
  {
    acts != [] ==> Fresh(t, acts[0]) && FreshRun(Apply(t, acts[0]).tables, acts[1..])
  }

  // -------------------------------- Device codes --------------------------------

  /** Whom the request makes the principal of a pending code with this user code and expiry: read
      off the request alone. */
  function Approver(act: Act, userKey: string, expires: nat): Option<string> {
    if act.Bind? && userKey != "" && act.principal != "" && act.userKey == userKey && Sec(act.now) < expires
    then Some(act.principal)
    else None
  }

  /** The first of the requests to do so. */
  function FirstApprover(acts: seq<Act>, userKey: string, expires: nat): Option<string> {
    if acts == [] then None
    else if Approver(acts[0], userKey, expires).Some? then Approver(acts[0], userKey, expires)
    else FirstApprover(acts[1..], userKey, expires)
  }

  /** Every approval is made in a year of four digits. */
  predicate FourDigitYears(acts: seq<Act>) {
    forall i :: 0 <= i < |acts| && acts[i].Bind? ==> Year(Sec(acts[i].now)) <= 9999
  }

  function BoundTo(d: Device, who: Option<string>): Device {
    if who.Some? then d.(principal := who.value, approved := true) else d
  }

  lemma {:induction false} PendingInTime(d: Device, userKey: string, now: Instant)
    requires Year(d.expires) <= 9999 && Year(Sec(now)) <= 9999
    ensures Pending(d, userKey, now) <==> d.userCode == userKey && !d.approved && Sec(now) < d.expires
  {
    ByteOrderIsTimeOrder(Sec(now), d.expires);
  }

  lemma {:induction false} BindBinds(t: Tables, act: Act, h: string)
    requires act.Bind? && h in t.devices && Year(t.devices[h].expires) <= 9999 && Year(Sec(act.now)) <= 9999
    ensures h in Apply(t, act).tables.devices
    ensures Apply(t, act).tables.devices[h] == Settled(t.devices[h], act)
  {
    PendingInTime(t.devices[h], act.userKey, act.now);
  }

  function Settled(d: Device, act: Act): Device {
    if d.approved then d else BoundTo(d, Approver(act, d.userCode, d.expires))
  }

  /** A pending code changes only when it is approved; an approved one not at all. */
  lemma {:induction false} StepBinds(t: Tables, act: Act, h: string)
    requires Fresh(t, act) && h in t.devices && Year(t.devices[h].expires) <= 9999
    requires act.Bind? ==> Year(Sec(act.now)) <= 9999
    ensures h in Apply(t, act).tables.devices
    ensures Apply(t, act).tables.devices[h] == Settled(t.devices[h], act)
  {
    if act.Bind? {
      BindBinds(t, act, h);
    }
  }

  lemma {:induction false} ApprovedStays(t: Tables, acts: seq<Act>, h: string)
    requires FreshRun(t, acts) && FourDigitYears(acts)
    requires h in t.devices && t.devices[h].approved && Year(t.devices[h].expires) <= 9999
    ensures h in Run(t, acts).devices && Run(t, acts).devices[h] == t.devices[h]
    decreases |acts|
  {
    if acts != [] {
      StepBinds(t, acts[0], h);
      assert FourDigitYears(acts[1..]);
      ApprovedStays(Apply(t, acts[0]).tables, acts[1..], h);
    }
  }

  /** Over every run, a pending code becomes bound to the first principal to approve it in time,
      and to nobody else, ever. */
  lemma {:induction false} FirstApproverWins(t: Tables, acts: seq<Act>, h: string)
    requires FreshRun(t, acts) && FourDigitYears(acts)
    requires h in t.devices && !t.devices[h].approved && Year(t.devices[h].expires) <= 9999
    ensures h in Run(t, acts).devices
    ensures var d := t.devices[h];
            Run(t, acts).devices[h] == BoundTo(d, FirstApprover(acts, d.userCode, d.expires))
    decreases |acts|
  {
    if acts != [] {
      StepBinds(t, acts[0], h);
      assert FourDigitYears(acts[1..]);
      var next := Apply(t, acts[0]).tables;
      if next.devices[h].approved {
        ApprovedStays(next, acts[1..], h);
      } else {
        FirstApproverWins(next, acts[1..], h);
      }
    }
  }

  lemma {:induction false} ApproverIsSomeone(acts: seq<Act>, userKey: string, expires: nat)
    ensures FirstApprover(acts, userKey, expires) != Some("")
  {
    if acts != [] {
      ApproverIsSomeone(acts[1..], userKey, expires);
    }
  }

  /** What an exchange has to answer, from the requests before it alone. */
  function Verdict(who: Option<string>, expires: nat, m: Mint, now: Instant): Reply {
    if Expired(expires, now) then Refused("invalid_grant")
    else if who.None? then Refused("authorization_pending")
    else if m.blocked then Refused("invalid_grant")
    else if !m.mints then Refused("server_error")
    else Issued(who.value, m.requested, m.token)
  }

  lemma {:induction false} ExchangeAnswers(t: Tables, d: Device, who: Option<string>, act: Act)
    requires act.Exchange? && act.device in t.devices && who != Some("")
    requires !d.approved && t.devices[act.device] == BoundTo(d, who)
    ensures Apply(t, act).reply == Verdict(who, d.expires, act.mint, act.now)
  {
  }

  /** The device flow from its start: whatever requests come in between, exchanging the code mints
      for the first principal that approved its user code before it expired, stays pending while
      nobody has, and is refused after that second. */
  lemma {:induction false} DeviceFlowIsExact(t: Tables, start: Act, acts: seq<Act>, exchange: Act)
    requires start.Register? && exchange.Exchange? && exchange.device == start.device
    requires Fresh(t, start) && FreshRun(Apply(t, start).tables, acts)
    requires FourDigitYears(acts) && Year(start.expires) <= 9999
    ensures Apply(Run(Apply(t, start).tables, acts), exchange).reply
            == Verdict(FirstApprover(acts, start.userKey, start.expires), start.expires, exchange.mint, exchange.now)
  {
    var begun := Apply(t, start).tables;
    FirstApproverWins(begun, acts, start.device);
    ApproverIsSomeone(acts, start.userKey, start.expires);
    var who := FirstApprover(acts, start.userKey, start.expires);
    ExchangeAnswers(Run(begun, acts), begun.devices[start.device], who, exchange);
  }

  lemma {:induction false} FirstApproverLasts(acts: seq<Act>, more: seq<Act>, userKey: string, expires: nat)
    requires FirstApprover(acts, userKey, expires).Some?
    ensures FirstApprover(acts + more, userKey, expires) == FirstApprover(acts, userKey, expires)
  {
    assert (acts + more)[0] == acts[0] && (acts + more)[1..] == acts[1..] + more;
    if Approver(acts[0], userKey, expires).None? {
      FirstApproverLasts(acts[1..], more, userKey, expires);
    }
  }

  lemma {:induction false} FreshPrefix(t: Tables, acts: seq<Act>, more: seq<Act>)
    requires FreshRun(t, acts + more)
    ensures FreshRun(t, acts)
    decreases |acts|
  {
    if acts != [] {
      assert (acts + more)[0] == acts[0] && (acts + more)[1..] == acts[1..] + more;
      FreshPrefix(Apply(t, acts[0]).tables, acts[1..], more);
    }
  }

  lemma {:induction false} YearsPrefix(acts: seq<Act>, more: seq<Act>)
    requires FourDigitYears(acts + more)
    ensures FourDigitYears(acts)
  {
    forall i | 0 <= i < |acts| && acts[i].Bind? ensures Year(Sec(acts[i].now)) <= 9999 {
      assert (acts + more)[i] == acts[i];
    }
  }

  /** Two tokens minted for one device code, at any two points of a run, are for one principal. */
  lemma {:induction false} OneCodeOnePrincipal(t: Tables, start: Act, acts: seq<Act>, more: seq<Act>, exchange: Act,
      later: Act, first: Reply, second: Reply)
    requires start.Register? && exchange.Exchange? && exchange.device == start.device
    requires later.Exchange? && later.device == start.device
    requires Fresh(t, start) && FreshRun(Apply(t, start).tables, acts + more)
    requires FourDigitYears(acts + more) && Year(start.expires) <= 9999
    requires first == Apply(Run(Apply(t, start).tables, acts), exchange).reply
    requires second == Apply(Run(Apply(t, start).tables, acts + more), later).reply
    ensures first.Issued? && second.Issued? ==> first.principal == second.principal
  {
    FreshPrefix(Apply(t, start).tables, acts, more);
    YearsPrefix(acts, more);
    DeviceFlowIsExact(t, start, acts, exchange);
    DeviceFlowIsExact(t, start, acts + more, later);
    if FirstApprover(acts, start.userKey, start.expires).Some? {
      FirstApproverLasts(acts, more, start.userKey, start.expires);
    }
  }

  // ------------------------------- Refresh tokens -------------------------------

  /** Where a refresh token comes from: the grant at the root of its chain, how many refreshes ago
      that was, and when the token itself was issued. */
  datatype Origin = Origin(principal: string, audience: string, depth: nat, issued: Instant)

  function Refreshed(o: Origin, now: Instant): Origin {
    o.(depth := o.depth + 1, issued := now)
  }

  function ExpiryOf(o: Origin): nat {
    Sec(o.issued + REFRESH_TTL)
  }

  /** The bookkeeping after a request that issued a token: a refresh extends the chain of the
      token it redeems, any other grant starts one. */
  function Traced(o: map<string, Origin>, act: Act, reply: Reply): map<string, Origin> {
    if !reply.Issued? then o
    else
      match act
      case Redeem(h, m, now) => if h in o then o[m.key := Refreshed(o[h], now)] else o
      case Exchange(_, m, now) => o[m.key := Origin(reply.principal, reply.audience, 0, now)]
      case Grant(_, m, now) => o[m.key := Origin(reply.principal, reply.audience, 0, now)]
      case _ => o
  }

  function Origins(t: Tables, o: map<string, Origin>, acts: seq<Act>): map<string, Origin>
    decreases |acts|
  {
    if acts == [] then o
    else
      var next := Apply(t, acts[0]);
      Origins(next.tables, Traced(o, acts[0], next.reply), acts[1..])
  }

  /** Every token stands in relation `p` to its origin. */
  ghost predicate Related(p: (RefreshRow, Origin) -> bool, t: Tables, o: map<string, Origin>) {
    o.Keys == t.refreshes.Keys && forall h :: h in o ==> p(t.refreshes[h], o[h])
  }

  /** The token is its origin's principal's, for the origin's audience normalized once for each
      refresh, until a day after it was issued. */
  predicate OfOrigin(row: RefreshRow, o: Origin) {
    && row.principal == o.principal && row.audience == TrimSpace(Iterate(Normalize, o.audience, o.depth))
    && row.expires == ExpiryOf(o)
  }

  ghost predicate Lineage(t: Tables, o: map<string, Origin>) {
    Related(OfOrigin, t, o)
  }

  lemma {:induction false} NextOfOrigin(row: RefreshRow, o: Origin)
    requires OfOrigin(row, o)
    ensures Normalize(row.audience) == Iterate(Normalize, o.audience, o.depth + 1)
  {
    NormalizeOfTrimmed(Iterate(Normalize, o.audience, o.depth));
  }

  /** What writing a token needs of its origin, for any relation. */
  predicate Writes(p: (RefreshRow, Origin) -> bool, principal: string, audience: string, from: Origin) {
    p(RefreshRow(principal, TrimSpace(audience), ExpiryOf(from)), from)
  }

  lemma {:induction false} GrantWrites(principal: string, audience: string, now: Instant)
    ensures Writes(OfOrigin, principal, audience, Origin(principal, audience, 0, now))
  {
    hide TrimSpace, Normalize, Sec;
  }

  lemma {:induction false} RefreshWrites(row: RefreshRow, o: Origin, now: Instant)
    requires OfOrigin(row, o)
    ensures Writes(OfOrigin, row.principal, Normalize(row.audience), Refreshed(o, now))
  {
    NextOfOrigin(row, o);
    hide TrimSpace, Normalize, Sec;
  }

  lemma {:induction false} WrittenKeeps(p: (RefreshRow, Origin) -> bool, t: Tables, o: map<string, Origin>,
      principal: string, audience: string, m: Mint, now: Instant, from: Origin)
    requires Related(p, t, o) && m.key !in t.refreshes && Writes(p, principal, audience, from) && from.issued == now
    ensures var next := Written(t, principal, audience, m, now);
            Related(p, next.tables, if next.reply.Issued? then o[m.key := from] else o)
  {
  }

  /** Everything the tables have to do with the relation in one request. */
  ghost predicate StepWrites(p: (RefreshRow, Origin) -> bool, t: Tables, o: map<string, Origin>, act: Act) {
    match act
    case Exchange(h, m, now) =>
      h in t.devices ==>
        Writes(p, t.devices[h].principal, m.requested, Origin(t.devices[h].principal, m.requested, 0, now))
    case Redeem(h, _, now) =>
      h in t.refreshes && h in o ==>
        Writes(p, t.refreshes[h].principal, Normalize(t.refreshes[h].audience), Refreshed(o[h], now))
    case Grant(who, m, now) => Writes(p, who, m.requested, Origin(who, m.requested, 0, now))
    case _ => true
  }

  lemma {:induction false} StepKeepsRelation(p: (RefreshRow, Origin) -> bool, t: Tables,
      o: map<string, Origin>, act: Act)
    requires Related(p, t, o) && Fresh(t, act) && StepWrites(p, t, o, act)
    ensures var next := Apply(t, act); Related(p, next.tables, Traced(o, act, next.reply))
  {
    hide Normalize, TrimSpace;
    match act
    case Exchange(h, m, now) =>
      if h in t.devices {
        var who := t.devices[h].principal;
        WrittenKeeps(p, t, o, who, m.requested, m, now, Origin(who, m.requested, 0, now));
      }
    case Redeem(h, m, now) =>
      if h in t.refreshes {
        var row := t.refreshes[h];
        WrittenKeeps(p, t, o, row.principal, Normalize(row.audience), m, now, Refreshed(o[h], now));
      }
    case Grant(who, m, now) =>
      WrittenKeeps(p, t, o, who, m.requested, m, now, Origin(who, m.requested, 0, now));
    case _ =>
  }

  lemma {:induction false} StepWritesOrigin(t: Tables, o: map<string, Origin>, act: Act)
    requires Related(OfOrigin, t, o)
    ensures StepWrites(OfOrigin, t, o, act)
  {
    hide OfOrigin, Writes, Normalize;
    match act
    case Exchange(h, m, now) =>
      if h in t.devices {
        GrantWrites(t.devices[h].principal, m.requested, now);
      }
    case Redeem(h, _, now) =>
      if h in t.refreshes {
        RefreshWrites(t.refreshes[h], o[h], now);
      }
    case Grant(who, m, now) => GrantWrites(who, m.requested, now);
    case _ =>
  }

  lemma {:induction false} StepKeepsLineage(t: Tables, o: map<string, Origin>, act: Act)
    requires Lineage(t, o) && Fresh(t, act)
    ensures var next := Apply(t, act); Lineage(next.tables, Traced(o, act, next.reply))
  {
    StepWritesOrigin(t, o, act);
    StepKeepsRelation(OfOrigin, t, o, act);
  }

  /** Over every run with fresh tokens. */
  lemma {:induction false} RunKeepsLineage(t: Tables, o: map<string, Origin>, acts: seq<Act>)
    requires Lineage(t, o) && FreshRun(t, acts)
    ensures Lineage(Run(t, acts), Origins(t, o, acts))
    decreases |acts|
  {
    if acts != [] {
      StepKeepsLineage(t, o, acts[0]);
      var next := Apply(t, acts[0]);
      RunKeepsLineage(next.tables, Traced(o, acts[0], next.reply), acts[1..]);
    }
  }

  /** What a refresh has to answer, from the origin of its token alone. */
  function RefreshVerdict(o: Origin, m: Mint, now: Instant): Reply {
    var audience := Iterate(Normalize, o.audience, o.depth + 1);
    if Expired(ExpiryOf(o), now) then Refused("invalid_grant")
    else if m.requested != "" && m.requested != audience then Refused("invalid_grant")
    else if m.blocked then Refused("invalid_grant")
    else if !m.mints then Refused("server_error")
    else Issued(o.principal, audience, m.token)
  }

  lemma {:induction false} RedeemAnswers(t: Tables, o: map<string, Origin>, redeem: Act)
    requires Lineage(t, o) && redeem.Redeem? && redeem.refresh in t.refreshes
    ensures var h := redeem.refresh;
            Apply(t, redeem).reply == RefreshVerdict(o[h], redeem.mint, redeem.now)
  {
    hide Normalize, TrimSpace;
    NextOfOrigin(t.refreshes[redeem.refresh], o[redeem.refresh]);
  }

  const NOTHING := Tables(map[], map[])

  /** In every run from empty tables, a refresh mints for the principal of the first grant of the
      chain, for that grant's audience normalized once more, within a day of when the token was
      issued; no scope or resource changes that. */
  lemma {:induction false} RefreshFlowIsExact(acts: seq<Act>, redeem: Act)
    requires FreshRun(NOTHING, acts) && redeem.Redeem?
    ensures var end := Run(NOTHING, acts); var o := Origins(NOTHING, map[], acts); var h := redeem.refresh;
            && (h in o <==> h in end.refreshes)
            && Apply(end, redeem).reply
               == if h !in o then Refused("invalid_grant")
                  else RefreshVerdict(o[h], redeem.mint, redeem.now)
  {
    RunKeepsLineage(NOTHING, map[], acts);
    var end, o := Run(NOTHING, acts), Origins(NOTHING, map[], acts);
    if redeem.refresh in end.refreshes {
      RedeemAnswers(end, o, redeem);
    }
  }

  /** Two refreshes of one chain mint for one principal; the later audience is never longer than
      the chain's first; and once the audience is plain, or there have been as many refreshes as
      the first audience has characters, it is the same. */
  lemma {:induction false} ChainSettles(o: Origin, depth: nat, issued: Instant, m1: Mint, n1: Instant, m2: Mint,
      n2: Instant, first: Reply, second: Reply)
    requires first == RefreshVerdict(o, m1, n1) && first.Issued?
    requires second == RefreshVerdict(o.(depth := depth, issued := issued), m2, n2) && second.Issued?
    requires o.depth <= depth
    ensures first.principal == second.principal && |second.audience| <= |o.audience|
    ensures IsPlain(first.audience) || o.depth + 1 >= |o.audience| ==> second.audience == first.audience
  {
    hide Normalize, IsPlain;
    AudienceSettles(o.audience, o.depth + 1, depth + 1);
    AudienceSettles(o.audience, depth + 1, depth + 1);
  }

  // --------------------------- One approval, one device ---------------------------

  /** No two codes share a user code. */
  ghost predicate DistinctUserCodes(ds: map<string, Device>) {
    forall h, k :: h in ds && k in ds && ds[h].userCode == ds[k].userCode ==> h == k
  }

  ghost predicate FreshUserCode(ds: map<string, Device>, act: Act) {
    act.Register? ==> forall h :: h in ds ==> ds[h].userCode != act.userKey
  }

  lemma {:induction false} StepKeepsDistinct(t: Tables, act: Act)
    requires DistinctUserCodes(t.devices) && FreshUserCode(t.devices, act)
    ensures DistinctUserCodes(Apply(t, act).tables.devices)
  {
  }

  ghost predicate FreshUserCodes(t: Tables, acts: seq<Act>)
    decreases |acts|
  {
    acts != [] ==> FreshUserCode(t.devices, acts[0]) && FreshUserCodes(Apply(t, acts[0]).tables, acts[1..])
  }

  lemma {:induction false} RunKeepsDistinct(t: Tables, acts: seq<Act>)
    requires DistinctUserCodes(t.devices) && FreshUserCodes(t, acts)
    ensures DistinctUserCodes(Run(t, acts).devices)
    decreases |acts|
  {
    if acts != [] {
      StepKeepsDistinct(t, acts[0]);
      RunKeepsDistinct(Apply(t, acts[0]).tables, acts[1..]);
    }
  }

  /** Then one approval binds exactly one device code, or none and says so. */
  lemma {:induction false} ApprovalBindsOne(t: Tables, act: Act)
    requires act.Bind? && DistinctUserCodes(t.devices)
    ensures var next := Apply(t, act);
            if next.reply.Done? then exists h :: BindsJust(t, act, h, next.tables) else next.tables == t
  {
    if Apply(t, act).reply.Done? {
      var h :| h in t.devices && Pending(t.devices[h], act.userKey, act.now);
      JustOne(t.devices, act, h);
      assert BindsJust(t, act, h, Apply(t, act).tables);
    }
  }

  ghost predicate BindsJust(t: Tables, act: Act, h: string, next: Tables)
    requires act.Bind?
  {
    && h in t.devices && !t.devices[h].approved && t.devices[h].userCode == act.userKey
    && next == t.(devices := t.devices[h := t.devices[h].(principal := act.principal, approved := true)])
  }

  lemma {:induction false} JustOne(ds: map<string, Device>, act: Act, h: string)
    requires act.Bind? && DistinctUserCodes(ds) && h in ds && Pending(ds[h], act.userKey, act.now)
    ensures BindAll(ds, act.userKey, act.principal, act.now)
            == ds[h := ds[h].(principal := act.principal, approved := true)]
  {
    var all := BindAll(ds, act.userKey, act.principal, act.now);
    var bound := ds[h].(principal := act.principal, approved := true);
    forall k | k in ds ensures all[k] == if k == h then bound else ds[k] {
    }
  }
}
