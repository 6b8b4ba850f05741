/** The device-code, refresh and password flows over runs of requests: who may have a code bound to
    them or a token minted for them, said of the forms and of what the password checks gave. */
module TokenRequests {
  import opened Outcomes
  import opened Text
  import opened Rfc3339
  import opened Audience
  import opened TokenFlows

  // ------------------------------- What was asked -------------------------------

  /** One code typed for another: the same up to letter case and outer white space. */
  ghost predicate Typed(typed: string, code: string) {
    exists u, v :: Wraps(typed, u) && Wraps(code, v) && SameText(u, v)
  }

  /** A password check was passed, by a user whose id, less outer white space, is `p`. */
  ghost predicate Verified(username: string, password: string, user: Option<string>, p: string) {
    !IsBlank(username) && !IsBlank(password) && user.Some? && p != "" && Wraps(user.value, p)
  }

  /** The request approves, in time, the code that `start` handed out, as `p`. */
  ghost predicate ApprovesAs(r: Request, start: Request, p: string) {
    && start.Start? && r.Approve? && Verified(r.username, r.password, r.user, p)
    && !IsBlank(r.userCode) && Typed(r.userCode, HandedOut(start.drawn))
    && Sec(r.now) < Sec(start.now + DEVICE_TTL)
  }

  ghost predicate ApprovedFor(reqs: seq<Request>, i: nat, j: nat, p: string)
    requires i < |reqs| && j < |reqs|
  {
    ApprovesAs(reqs[j], reqs[i], p)
  }

  ghost predicate Starts(hash: string -> string, r: Request, h: string) {
    r.Start? && hash(r.code) == h
  }

  /** Request `i` began the code with hash `h`, and no later one of the first `n` began it anew. */
  ghost predicate Begun(hash: string -> string, reqs: seq<Request>, i: nat, n: nat, h: string)
    requires n <= |reqs|
  {
    i < n && Starts(hash, reqs[i], h) && forall k :: i < k < n ==> !Starts(hash, reqs[k], h)
  }

  /** Request `j` is the first after `i` to approve its code, and does so as `p`. */
  ghost predicate FirstApproval(reqs: seq<Request>, i: nat, j: nat, n: nat, p: string)
    requires n <= |reqs|
  {
    i < j < n && ApprovedFor(reqs, i, j, p) && forall k, q :: i < k < j ==> !ApprovedFor(reqs, i, k, q)
  }

  /** After `n` requests the code with hash `h` is bound to `p`. */
  ghost predicate BoundAs(hash: string -> string, reqs: seq<Request>, n: nat, h: string, p: string)
    requires n <= |reqs|
  {
    exists i: nat, j: nat :: Begun(hash, reqs, i, n, h) && FirstApproval(reqs, i, j, n, p)
  }

  /** The tables after the first `n` requests, from empty ones. */
  function After(hash: string -> string, reqs: seq<Request>, n: nat): Tables
    requires n <= |reqs|
  {
    if n == 0 then NOTHING else Serve(hash, After(hash, reqs, n - 1), reqs[n - 1]).tables
  }

  /** Codes expire, and approvals are made, in years of four digits. */
  ghost predicate FourDigits(reqs: seq<Request>) {
    forall k {:trigger reqs[k]} :: 0 <= k < |reqs| ==> FourDigit(reqs[k])
  }

  ghost predicate FourDigit(r: Request) {
    match r
    case Start(_, _, now) => Year(Sec(now + DEVICE_TTL)) <= 9999
    case Approve(_, _, _, _, now) => Year(Sec(now)) <= 9999
    case _ => true
  }

  // ----------------------------- Reading an approval -----------------------------

  lemma {:induction false} TypedIff(typed: string, code: string)
    ensures Typed(typed, code) <==> UserKey(typed) == UserKey(code)
  {
    hide Wraps, TrimSpace, SameText, ToUpper;
    forall x, core ensures core == TrimSpace(x) <==> Wraps(x, core) {
      TrimSpaceIff(x, core);
    }
    assert Wraps(typed, TrimSpace(typed)) && Wraps(code, TrimSpace(code));
    UpperIffSame(TrimSpace(typed), TrimSpace(code));
  }

  lemma {:induction false} VerifiedIff(username: string, password: string, user: Option<string>, p: string)
    ensures Verified(username, password, user, p)
       <==> !Blank(username, password) && user.Some? && p != "" && p == TrimSpace(user.value)
  {
    BlankIff(username);
    BlankIff(password);
    if user.Some? {
      TrimSpaceIff(user.value, p);
    }
    hide TrimSpace, IsBlank, Wraps;
  }

  /** What an approval asks of the tables. */
  lemma {:induction false} ApprovalIs(hash: string -> string, r: Request, start: Request, p: string)
    requires r.Approve? && start.Start?
    ensures ApprovesAs(r, start, p) <==>
              var act := ActOf(hash, r);
              act.Bind? && act.principal == p && p != "" && act.userKey != "" && act.now == r.now
              && act.userKey == UserKey(HandedOut(start.drawn)) && Sec(r.now) < Sec(start.now + DEVICE_TTL)
  {
    hide TrimSpace, IsBlank, Typed, Verified, HandedOut, Sec;
    TypedIff(r.userCode, HandedOut(start.drawn));
    VerifiedIff(r.username, r.password, r.user, p);
    BlankIff(r.userCode);
  }

  // -------------------------------- One request --------------------------------

  /** What a request makes of a device code that it does not begin. */
  lemma {:induction false} StepDevice(hash: string -> string, t: Tables, r: Request, h: string)
    requires !Starts(hash, r, h)
    ensures var ds := Serve(hash, t, r).tables.devices; var act := ActOf(hash, r);
            && (h in ds <==> h in t.devices)
            && (h in ds ==>
                  ds[h] == if act.Bind? && act.userKey != "" && act.principal != ""
                           then Bound(t.devices[h], act.userKey, act.principal, act.now) else t.devices[h])
  {
    hide TrimSpace, Blank, HandedOut, Sec, Requested, UserKey, Normalize, Pending, Expired;
  }

  lemma {:induction false} StepStart(hash: string -> string, t: Tables, r: Request, h: string)
    requires Starts(hash, r, h)
    ensures var ds := Serve(hash, t, r).tables.devices;
            && h in ds
            && ds[h] == Device("", UserKey(HandedOut(r.drawn)), false, Sec(r.now + DEVICE_TTL))
  {
    hide UserKey, HandedOut, Sec, Requested, TrimSpace, Blank;
  }

  /** The row of a code that `start` began. */
  predicate RowOf(d: Device, start: Request)
    requires start.Start?
  {
    d.userCode == UserKey(HandedOut(start.drawn)) && d.expires == Sec(start.now + DEVICE_TTL)
  }

  /** A pending code is bound by an approval for it, and by nothing else; a bound one stays. */
  lemma {:induction false} StepBinding(hash: string -> string, t: Tables, r: Request, h: string, start: Request)
    requires !Starts(hash, r, h) && h in t.devices && start.Start? && RowOf(t.devices[h], start)
    requires FourDigit(r) && FourDigit(start)
    ensures var ds := Serve(hash, t, r).tables.devices; var d := t.devices[h];
            && h in ds && RowOf(ds[h], start)
            && (d.approved ==> ds[h] == d)
            && (!d.approved && ds[h] != d ==> ds[h].approved && ApprovesAs(r, start, ds[h].principal))
            && (!d.approved ==> forall p :: ApprovesAs(r, start, p) ==> ds[h] == d.(principal := p, approved := true))
  {
    hide Serve, ApprovesAs, UserKey, HandedOut, Less, Format, Stamped, Year, TrimSpace, Blank, Sec, FourDigit;
    StepDevice(hash, t, r, h);
    if r.Approve? {
      ApprovalBinds(hash, r, start, t.devices[h]);
    } else {
      NotAnApproval(hash, r, start);
    }
  }

  lemma {:induction false} ApprovalBinds(hash: string -> string, r: Request, start: Request, d: Device)
    requires r.Approve? && start.Start? && RowOf(d, start) && FourDigit(r) && FourDigit(start)
    ensures var act := ActOf(hash, r);
            act.Bind? && act.userKey != "" && act.principal != "" && Pending(d, act.userKey, act.now) ==>
              !d.approved && ApprovesAs(r, start, act.principal)
    ensures forall p :: ApprovesAs(r, start, p) && !d.approved ==>
              var act := ActOf(hash, r);
              act.Bind? && act.userKey != "" && p != "" && p == act.principal && Pending(d, act.userKey, act.now)
  {
    hide ApprovesAs, UserKey, HandedOut, Less, Format, Stamped, Year, TrimSpace, Blank;
    forall p ensures ApprovesAs(r, start, p) <==>
                       var act := ActOf(hash, r);
                       act.Bind? && act.principal == p && p != "" && act.userKey != "" && act.now == r.now
                       && act.userKey == d.userCode && Sec(r.now) < d.expires
    {
      ApprovalIs(hash, r, start, p);
    }
    PendingInTime(d, d.userCode, r.now);
  }

  lemma {:induction false} NotAnApproval(hash: string -> string, r: Request, start: Request)
    requires !r.Approve?
    ensures !ActOf(hash, r).Bind? && forall p :: !ApprovesAs(r, start, p)
  {
  }

  // ---------------------------------- Every run ----------------------------------

  /** Whether, and as whom, the requests since the start of a code approve it. */
  ghost predicate Decided(reqs: seq<Request>, i: nat, n: nat, approved: bool, p: string)
    requires i < n <= |reqs|
  {
    && (approved ==> exists j: nat :: FirstApproval(reqs, i, j, n, p))
    && (!approved ==> forall j, q :: i < j < n ==> !ApprovedFor(reqs, i, j, q))
  }

  /** The row of a code says what the requests since its start say. */
  ghost predicate DeviceIs(reqs: seq<Request>, i: nat, n: nat, d: Device)
    requires i < n <= |reqs|
  {
    reqs[i].Start? && RowOf(d, reqs[i]) && Decided(reqs, i, n, d.approved, d.principal)
  }

  lemma {:induction false} BegunNext(hash: string -> string, reqs: seq<Request>, i: nat, n: nat, h: string)
    requires n < |reqs|
    ensures Begun(hash, reqs, i, n + 1, h) <==>
              if Starts(hash, reqs[n], h) then i == n else Begun(hash, reqs, i, n, h)
  {
    if Begun(hash, reqs, i, n + 1, h) && i != n {
      assert !Starts(hash, reqs[n], h);
    }
  }

  lemma {:induction false} FirstApprovalNext(reqs: seq<Request>, i: nat, j: nat, n: nat, p: string)
    requires n < |reqs| && FirstApproval(reqs, i, j, n, p)
    ensures FirstApproval(reqs, i, j, n + 1, p)
  {
  }

  lemma {:induction false} DecidedNext(reqs: seq<Request>, i: nat, n: nat, p: string, q: string)
    requires i < n < |reqs|
    ensures Decided(reqs, i, n, true, p) ==> Decided(reqs, i, n + 1, true, p)
    ensures Decided(reqs, i, n, false, p) && ApprovedFor(reqs, i, n, q) ==> Decided(reqs, i, n + 1, true, q)
    ensures Decided(reqs, i, n, false, p) && (forall x :: !ApprovedFor(reqs, i, n, x)) ==>
              Decided(reqs, i, n + 1, false, p)
  {
    hide ApprovedFor;
    if Decided(reqs, i, n, true, p) {
      var j: nat :| FirstApproval(reqs, i, j, n, p);
      FirstApprovalNext(reqs, i, j, n, p);
    }
    if Decided(reqs, i, n, false, p) && ApprovedFor(reqs, i, n, q) {
      assert FirstApproval(reqs, i, n, n + 1, q);
    }
  }

  lemma {:induction false} DeviceNext(hash: string -> string, reqs: seq<Request>, i: nat, n: nat, h: string, t: Tables)
    requires i < n < |reqs| && FourDigits(reqs) && h in t.devices && !Starts(hash, reqs[n], h)
    requires DeviceIs(reqs, i, n, t.devices[h])
    ensures var ds := Serve(hash, t, reqs[n]).tables.devices;
            h in ds && DeviceIs(reqs, i, n + 1, ds[h])
  {
    var d := t.devices[h];
    assert FourDigit(reqs[n]) && FourDigit(reqs[i]);
    hide ApprovesAs, Serve, RowOf, FourDigit, FourDigits, Decided;
    StepBinding(hash, t, reqs[n], h, reqs[i]);
    DecidedNext(reqs, i, n, d.principal, Serve(hash, t, reqs[n]).tables.devices[h].principal);
  }

  /** After `n` requests, the code with hash `h` is there exactly if some request began it, and
      its row says what the requests since then say. */
  ghost predicate DevicesSay(hash: string -> string, reqs: seq<Request>, n: nat, h: string, ds: map<string, Device>)
    requires n <= |reqs|
  {
    && (h in ds <==> exists i: nat :: Begun(hash, reqs, i, n, h))
    && forall i: nat :: Begun(hash, reqs, i, n, h) ==> h in ds && DeviceIs(reqs, i, n, ds[h])
  }

  lemma {:induction false} SayNextStart(hash: string -> string, t: Tables, reqs: seq<Request>, n: nat, next: nat,
      h: string)
    requires n < |reqs| && next == n + 1 && Starts(hash, reqs[n], h)
    ensures DevicesSay(hash, reqs, next, h, Serve(hash, t, reqs[n]).tables.devices)
  {
    hide Serve, DeviceIs, Starts, Begun;
    JustBegun(hash, t, reqs, n, next, h);
    forall i: nat ensures Begun(hash, reqs, i, next, h) <==> i == n {
      BegunNext(hash, reqs, i, n, h);
    }
    assert Begun(hash, reqs, n, next, h);
  }

  lemma {:induction false} SayNextOther(hash: string -> string, t: Tables, reqs: seq<Request>, n: nat, next: nat,
      h: string)
    requires n < |reqs| && next == n + 1 && !Starts(hash, reqs[n], h) && FourDigits(reqs)
    requires DevicesSay(hash, reqs, n, h, t.devices)
    ensures DevicesSay(hash, reqs, next, h, Serve(hash, t, reqs[n]).tables.devices)
  {
    var ds := Serve(hash, t, reqs[n]).tables.devices;
    StepDevice(hash, t, reqs[n], h);
    hide Serve, ActOf, DeviceIs, FourDigits, Begun, Starts, Bound;
    forall i: nat ensures Begun(hash, reqs, i, next, h) <==> Begun(hash, reqs, i, n, h) {
      BegunNext(hash, reqs, i, n, h);
    }
    forall i: nat | Begun(hash, reqs, i, n, h) ensures h in ds && DeviceIs(reqs, i, next, ds[h]) {
      BegunBefore(hash, reqs, i, n, h);
      DeviceNext(hash, reqs, i, n, h, t);
    }
  }

  lemma {:induction false} NothingBegun(hash: string -> string, reqs: seq<Request>, h: string)
    ensures DevicesSay(hash, reqs, 0, h, NOTHING.devices)
  {
  }

  lemma {:induction false} DevicesAre(hash: string -> string, reqs: seq<Request>, n: nat, h: string)
    requires n <= |reqs| && FourDigits(reqs)
    ensures DevicesSay(hash, reqs, n, h, After(hash, reqs, n).devices)
    decreases n
  {
    hide Serve, DevicesSay, FourDigits, Starts;
    if n == 0 {
      NothingBegun(hash, reqs, h);
    } else {
      var m, t := n - 1, After(hash, reqs, n - 1);
      DevicesAre(hash, reqs, m, h);
      if Starts(hash, reqs[m], h) {
        SayNextStart(hash, t, reqs, m, n, h);
      } else {
        SayNextOther(hash, t, reqs, m, n, h);
      }
    }
  }

  lemma {:induction false} BegunBefore(hash: string -> string, reqs: seq<Request>, i: nat, n: nat, h: string)
    requires n <= |reqs| && Begun(hash, reqs, i, n, h)
    ensures i < n
  {
  }

  lemma {:induction false} JustBegun(hash: string -> string, t: Tables, reqs: seq<Request>, n: nat, next: nat,
      h: string)
    requires n < |reqs| && next == n + 1 && Starts(hash, reqs[n], h)
    ensures var ds := Serve(hash, t, reqs[n]).tables.devices;
            h in ds && DeviceIs(reqs, n, next, ds[h])
  {
    StepStart(hash, t, reqs[n], h);
    hide Serve;
  }

  /** In every run from empty tables a device code is bound to `p` exactly when, since it was last
      begun, the first request that typed the user code handed out for it, in any letter case,
      with a password that checked, in time, gave `p`. */
  lemma {:induction false} BoundIff(hash: string -> string, reqs: seq<Request>, n: nat, h: string, p: string)
    requires n <= |reqs| && FourDigits(reqs)
    ensures var ds := After(hash, reqs, n).devices;
            h in ds && ds[h].approved && ds[h].principal == p <==> BoundAs(hash, reqs, n, h, p)
  {
    DevicesAre(hash, reqs, n, h);
    hide After, FourDigits, Begun, ApprovedFor, RowOf;
    if i: nat, j: nat :| Begun(hash, reqs, i, n, h) && FirstApproval(reqs, i, j, n, p) {
      OneFirst(reqs, i, j, n, p);
    }
  }

  lemma {:induction false} OneFirst(reqs: seq<Request>, i: nat, j: nat, n: nat, p: string)
    requires n <= |reqs| && FirstApproval(reqs, i, j, n, p)
    ensures forall k: nat, q :: FirstApproval(reqs, i, k, n, q) ==> q == p
  {
    forall k: nat, q | FirstApproval(reqs, i, k, n, q) ensures q == p {
      assert k == j;
      OnePrincipal(reqs[j], reqs[i], p, q);
    }
  }

  lemma {:induction false} OnePrincipal(r: Request, start: Request, p: string, q: string)
    requires ApprovesAs(r, start, p) && ApprovesAs(r, start, q)
    ensures p == q
  {
    VerifiedIff(r.username, r.password, r.user, p);
    VerifiedIff(r.username, r.password, r.user, q);
  }

  // ----------------------------------- Answers -----------------------------------

  /** A form that gives no user name, no password, or one that does not check, changes nothing. */
  lemma {:induction false} FailedCheckChangesNothing(hash: string -> string, t: Tables, r: Request)
    requires r.Approve? || r.ByPassword?
    requires IsBlank(r.username) || IsBlank(r.password) || r.user.None?
    ensures Serve(hash, t, r).tables == t && Serve(hash, t, r).reply.Refused?
  {
    hide TrimSpace, IsBlank, Requested, UserKey, HandedOut, Sec, Normalize, Expired, BindAll, SomePending;
    BlankIff(r.username);
    BlankIff(r.password);
  }

  /** The audience that a form asks for: the scope, and without one the resource. */
  function Asked(f: Form): string {
    Normalize(if IsBlank(f.scope) then f.resource else f.scope)
  }

  lemma {:induction false} RequestedIsAsked(f: Form)
    ensures Requested(f) == Asked(f)
  {
    BlankIff(f.scope);
    NormalizeOfTrimmed(f.scope);
    NormalizeOfTrimmed(f.resource);
    hide Normalize, TrimSpace, IsBlank;
  }

  /** The token for `form` goes through. */
  predicate GoesThrough(f: Form) {
    !f.blocked && f.mints
  }

  /** A password grant mints for the user that the check gave, and only then. */
  lemma {:induction false} PasswordIff(hash: string -> string, t: Tables, r: Request, p: string, a: string,
      token: string)
    requires r.ByPassword?
    ensures Serve(hash, t, r).reply == Issued(p, a, token) <==>
              && !IsBlank(r.username) && !IsBlank(r.password) && r.user == Some(p)
              && GoesThrough(r.form) && a == Asked(r.form) && token == r.form.drawn
  {
    hide TrimSpace, IsBlank, Requested, Asked, UserKey, HandedOut, Sec, Normalize, Expired, BindAll, SomePending;
    BlankIff(r.username);
    BlankIff(r.password);
    RequestedIsAsked(r.form);
  }

  /** The second that the code begun by request `i` expires in has not passed. */
  ghost predicate StillValid(reqs: seq<Request>, i: nat, now: Instant) {
    i < |reqs| && reqs[i].Start? && now <= Sec(reqs[i].now + DEVICE_TTL) * SECOND
  }

  /** The code with hash `h` is bound to `p`, and has not expired. */
  ghost predicate Holds(hash: string -> string, reqs: seq<Request>, n: nat, h: string, p: string, now: Instant)
    requires n <= |reqs|
  {
    exists i: nat, j: nat ::
      Begun(hash, reqs, i, n, h) && FirstApproval(reqs, i, j, n, p) && StillValid(reqs, i, now)
  }

  /** The code in the form, less outer white space, is such a code. */
  ghost predicate HoldsCode(hash: string -> string, reqs: seq<Request>, n: nat, code: string, p: string, now: Instant)
    requires n <= |reqs|
  {
    exists core :: Wraps(code, core) && core != "" && Holds(hash, reqs, n, hash(core), p, now)
  }

  function ReplyTo(hash: string -> string, reqs: seq<Request>, k: nat): Reply
    requires k < |reqs|
  {
    Serve(hash, After(hash, reqs, k), reqs[k]).reply
  }

  /** What an exchange answers, of the row alone. */
  lemma {:induction false} ExchangeOfRow(hash: string -> string, t: Tables, r: Request, p: string, a: string,
      token: string)
    requires r.ByDevice?
    ensures Serve(hash, t, r).reply == Issued(p, a, token) <==>
              var h := hash(TrimSpace(r.code));
              && TrimSpace(r.code) != "" && h in t.devices && !Expired(t.devices[h].expires, r.now)
              && t.devices[h].approved && t.devices[h].principal == p && p != ""
              && GoesThrough(r.form) && a == Asked(r.form) && token == r.form.drawn
  {
    hide TrimSpace, Requested, Asked, UserKey, HandedOut, Sec, Normalize, Expired, BindAll, SomePending, Blank;
    RequestedIsAsked(r.form);
  }

  /** In every run, an exchange mints for `p` exactly when its code is bound to `p` and in time. */
  lemma {:induction false} ExchangeIff(hash: string -> string, reqs: seq<Request>, n: nat, p: string, a: string,
      token: string)
    requires n < |reqs| && reqs[n].ByDevice? && FourDigits(reqs)
    ensures ReplyTo(hash, reqs, n) == Issued(p, a, token) <==>
              && HoldsCode(hash, reqs, n, reqs[n].code, p, reqs[n].now)
              && GoesThrough(reqs[n].form) && a == Asked(reqs[n].form) && token == reqs[n].form.drawn
  {
    var r := reqs[n];
    ExchangeOfRow(hash, After(hash, reqs, n), r, p, a, token);
    hide Serve, After, Asked, GoesThrough;
    HoldsIff(hash, reqs, n, p);
  }

  lemma {:induction false} HoldsIff(hash: string -> string, reqs: seq<Request>, n: nat, p: string)
    requires n < |reqs| && reqs[n].ByDevice? && FourDigits(reqs)
    ensures HoldsCode(hash, reqs, n, reqs[n].code, p, reqs[n].now) <==>
              var h, ds := hash(TrimSpace(reqs[n].code)), After(hash, reqs, n).devices;
              && TrimSpace(reqs[n].code) != "" && h in ds && !Expired(ds[h].expires, reqs[n].now)
              && ds[h].approved && ds[h].principal == p && p != ""
  {
    hide Wraps, TrimSpace, After, Holds, Expired, FourDigits;
    forall core ensures core == TrimSpace(reqs[n].code) <==> Wraps(reqs[n].code, core) {
      TrimSpaceIff(reqs[n].code, core);
    }
    HeldIff(hash, reqs, n, hash(TrimSpace(reqs[n].code)), p, reqs[n].now);
  }

  lemma {:induction false} HeldIff(hash: string -> string, reqs: seq<Request>, n: nat, h: string, p: string,
      now: Instant)
    requires n <= |reqs| && FourDigits(reqs)
    ensures var ds := After(hash, reqs, n).devices;
            Holds(hash, reqs, n, h, p, now) <==>
              h in ds && !Expired(ds[h].expires, now) && ds[h].approved && ds[h].principal == p && p != ""
  {
    hide After, Begun, FirstApproval, Expired, FourDigits, StillValid;
    BoundIff(hash, reqs, n, h, p);
    forall i: nat, j: nat | Begun(hash, reqs, i, n, h) && FirstApproval(reqs, i, j, n, p)
      ensures p != ""
      ensures var ds := After(hash, reqs, n).devices;
              h in ds && (StillValid(reqs, i, now) <==> !Expired(ds[h].expires, now))
    {
      BoundRow(hash, reqs, n, h, i, j, p, now);
    }
  }

  lemma {:induction false} BoundRow(hash: string -> string, reqs: seq<Request>, n: nat, h: string, i: nat, j: nat,
      p: string, now: Instant)
    requires n <= |reqs| && FourDigits(reqs) && Begun(hash, reqs, i, n, h) && FirstApproval(reqs, i, j, n, p)
    ensures var ds := After(hash, reqs, n).devices;
            p != "" && h in ds && (StillValid(reqs, i, now) <==> !Expired(ds[h].expires, now))
  {
    DevicesAre(hash, reqs, n, h);
    assert FourDigit(reqs[i]);
    hide After, Decided, FourDigits, Sec, Year;
  }

  // -------------------------------- Refresh tokens --------------------------------

  /** The answer to request `k` carries a refresh token with this hash. */
  ghost predicate Issues(hash: string -> string, reqs: seq<Request>, k: nat, h: string)
    requires k < |reqs|
  {
    ReplyTo(hash, reqs, k).Issued? && hash(ReplyTo(hash, reqs, k).refresh) == h
  }

  /** And no answer to a later one of the first `n` requests does. */
  ghost predicate LastIssue(hash: string -> string, reqs: seq<Request>, k: nat, n: nat, h: string)
    requires n <= |reqs|
  {
    k < n && Issues(hash, reqs, k, h) && forall m :: k < m < n ==> !Issues(hash, reqs, m, h)
  }

  lemma {:induction false} StepRefresh(hash: string -> string, t: Tables, r: Request, h: string)
    ensures var s := Serve(hash, t, r); var rs := s.tables.refreshes;
            if s.reply.Issued? && hash(s.reply.refresh) == h then
              h in rs && rs[h] == RefreshRow(s.reply.principal, TrimSpace(s.reply.audience), Sec(r.now + REFRESH_TTL))
            else
              (h in rs <==> h in t.refreshes) && (h in rs ==> rs[h] == t.refreshes[h])
  {
    hide TrimSpace, Requested, UserKey, HandedOut, Sec, Normalize, Expired, BindAll, SomePending, Blank;
  }

  ghost predicate RowIs(hash: string -> string, reqs: seq<Request>, k: nat, row: RefreshRow) {
    k < |reqs| &&
    var reply := ReplyTo(hash, reqs, k);
    reply.Issued? && row == RefreshRow(reply.principal, TrimSpace(reply.audience), Sec(reqs[k].now + REFRESH_TTL))
  }

  /** After `n` requests, the token with hash `h` is there exactly if some answer carried it, and its
      row says what the last such answer said. */
  ghost predicate RowsSay(hash: string -> string, reqs: seq<Request>, n: nat, h: string, rs: map<string, RefreshRow>)
    requires n <= |reqs|
  {
    && (h in rs <==> exists k: nat :: LastIssue(hash, reqs, k, n, h))
    && forall k: nat :: LastIssue(hash, reqs, k, n, h) ==> h in rs && RowIs(hash, reqs, k, rs[h])
  }

  lemma {:induction false} LastIssueNext(hash: string -> string, reqs: seq<Request>, k: nat, n: nat, h: string)
    requires n < |reqs|
    ensures LastIssue(hash, reqs, k, n + 1, h) <==>
              if Issues(hash, reqs, n, h) then k == n else LastIssue(hash, reqs, k, n, h)
  {
    hide Issues;
    if LastIssue(hash, reqs, k, n + 1, h) && k != n {
      assert !Issues(hash, reqs, n, h);
    }
  }

  lemma {:induction false} RowOfIssue(hash: string -> string, reqs: seq<Request>, n: nat, h: string)
    requires n < |reqs|
    ensures var t := After(hash, reqs, n); var rs := Serve(hash, t, reqs[n]).tables.refreshes;
            if Issues(hash, reqs, n, h) then h in rs && RowIs(hash, reqs, n, rs[h])
            else (h in rs <==> h in t.refreshes) && (h in rs ==> rs[h] == t.refreshes[h])
  {
    hide Serve, After, Sec, TrimSpace;
    StepRefresh(hash, After(hash, reqs, n), reqs[n], h);
  }

  lemma {:induction false} RowsNext(hash: string -> string, reqs: seq<Request>, n: nat, next: nat, h: string)
    requires n < |reqs| && next == n + 1 && RowsSay(hash, reqs, n, h, After(hash, reqs, n).refreshes)
    ensures RowsSay(hash, reqs, next, h, Serve(hash, After(hash, reqs, n), reqs[n]).tables.refreshes)
  {
    hide Serve, LastIssue, After, Issues, RowIs;
    forall k: nat
      ensures LastIssue(hash, reqs, k, next, h) <==>
                if Issues(hash, reqs, n, h) then k == n else LastIssue(hash, reqs, k, n, h)
    {
      LastIssueNext(hash, reqs, k, n, h);
    }
    RowOfIssue(hash, reqs, n, h);
    if Issues(hash, reqs, n, h) {
      assert LastIssue(hash, reqs, n, next, h);
    }
  }

  lemma {:induction false} RowsAre(hash: string -> string, reqs: seq<Request>, n: nat, h: string)
    requires n <= |reqs|
    ensures RowsSay(hash, reqs, n, h, After(hash, reqs, n).refreshes)
    decreases n
  {
    hide Serve, RowsSay;
    if n == 0 {
      NothingIssued(hash, reqs, h);
    } else {
      RowsAre(hash, reqs, n - 1, h);
      RowsNext(hash, reqs, n - 1, n, h);
    }
  }

  lemma {:induction false} NothingIssued(hash: string -> string, reqs: seq<Request>, h: string)
    ensures RowsSay(hash, reqs, 0, h, NOTHING.refreshes)
  {
  }

  /** The day that the answer to request `k` gave its refresh token has not passed. */
  ghost predicate StillFresh(reqs: seq<Request>, k: nat, now: Instant) {
    k < |reqs| &&
    var expires := Sec(reqs[k].now + REFRESH_TTL);
    Year(expires) <= 9999 ==> now <= expires * SECOND
  }

  /** The last answer that carried the token with hash `h` was for `p`, and its audience, normalized,
      is `a`; and it is fresh. */
  ghost predicate Carried(hash: string -> string, reqs: seq<Request>, n: nat, h: string, p: string, a: string,
      now: Instant)
    requires n <= |reqs|
  {
    exists k: nat :: LastIssue(hash, reqs, k, n, h) && Said(hash, reqs, k, p, a) && StillFresh(reqs, k, now)
  }

  ghost predicate Said(hash: string -> string, reqs: seq<Request>, k: nat, p: string, a: string) {
    k < |reqs| && var reply := ReplyTo(hash, reqs, k);
    reply.Issued? && reply.principal == p && a == Normalize(reply.audience)
  }

  /** The token in the form, less outer white space, is such a token. */
  ghost predicate HoldsToken(hash: string -> string, reqs: seq<Request>, n: nat, token: string, p: string, a: string,
      now: Instant)
    requires n <= |reqs|
  {
    exists core :: Wraps(token, core) && core != "" && Carried(hash, reqs, n, hash(core), p, a, now)
  }

  /** What a refresh answers, of the row alone. */
  lemma {:induction false} RefreshOfRow(hash: string -> string, t: Tables, r: Request, p: string, a: string,
      token: string)
    requires r.ByRefresh?
    ensures Serve(hash, t, r).reply == Issued(p, a, token) <==>
              var h := hash(TrimSpace(r.token));
              && TrimSpace(r.token) != "" && h in t.refreshes && !Expired(t.refreshes[h].expires, r.now)
              && t.refreshes[h].principal == p && a == Normalize(t.refreshes[h].audience)
              && (Asked(r.form) == "" || Asked(r.form) == a) && GoesThrough(r.form) && token == r.form.drawn
  {
    hide TrimSpace, Requested, Asked, UserKey, HandedOut, Sec, Normalize, Expired, BindAll, SomePending, Blank;
    RequestedIsAsked(r.form);
  }

  lemma {:induction false} CarriedRow(hash: string -> string, reqs: seq<Request>, k: nat, row: RefreshRow,
      p: string, a: string, now: Instant)
    requires RowIs(hash, reqs, k, row)
    ensures Said(hash, reqs, k, p, a) && StillFresh(reqs, k, now) <==>
              !Expired(row.expires, now) && row.principal == p && a == Normalize(row.audience)
  {
    hide Sec, Year, TrimSpace, Normalize, ReplyTo;
    NormalizeOfTrimmed(ReplyTo(hash, reqs, k).audience);
  }

  lemma {:induction false} CarriedIff(hash: string -> string, reqs: seq<Request>, n: nat, h: string, p: string,
      a: string, now: Instant)
    requires n <= |reqs|
    ensures var rs := After(hash, reqs, n).refreshes;
            Carried(hash, reqs, n, h, p, a, now) <==>
              h in rs && !Expired(rs[h].expires, now) && rs[h].principal == p && a == Normalize(rs[h].audience)
  {
    RowsAre(hash, reqs, n, h);
    hide After, LastIssue, RowIs, Said, StillFresh, Expired, Normalize;
    var rs := After(hash, reqs, n).refreshes;
    forall k: nat | LastIssue(hash, reqs, k, n, h)
      ensures h in rs && (Said(hash, reqs, k, p, a) && StillFresh(reqs, k, now) <==>
                !Expired(rs[h].expires, now) && rs[h].principal == p && a == Normalize(rs[h].audience))
    {
      CarriedRow(hash, reqs, k, rs[h], p, a, now);
    }
  }

  /** In every run, a refresh mints exactly for whom, and for what, the last answer that carried the
      token did, the audience normalized once more; and only if no other audience is asked for. */
  lemma {:induction false} RefreshIff(hash: string -> string, reqs: seq<Request>, n: nat, p: string, a: string,
      token: string)
    requires n < |reqs| && reqs[n].ByRefresh?
    ensures ReplyTo(hash, reqs, n) == Issued(p, a, token) <==>
              && HoldsToken(hash, reqs, n, reqs[n].token, p, a, reqs[n].now)
              && (Asked(reqs[n].form) == "" || Asked(reqs[n].form) == a)
              && GoesThrough(reqs[n].form) && token == reqs[n].form.drawn
  {
    var r := reqs[n];
    RefreshOfRow(hash, After(hash, reqs, n), r, p, a, token);
    hide Serve, After, Asked, GoesThrough, Carried, Wraps, TrimSpace, Expired, Normalize;
    forall core ensures core == TrimSpace(r.token) <==> Wraps(r.token, core) {
      TrimSpaceIff(r.token, core);
    }
    CarriedIff(hash, reqs, n, hash(TrimSpace(r.token)), p, a, r.now);
  }

  // ------------------------------ Nobody without proof ------------------------------

  /** Request `k` shows that `p` is there: a password of theirs that checks, or a device code that
      was approved by such a password. */
  ghost predicate Shows(hash: string -> string, reqs: seq<Request>, k: nat, p: string)
    requires k < |reqs|
  {
    match reqs[k]
    case ByPassword(username, password, user, _, _) => !IsBlank(username) && !IsBlank(password) && user == Some(p)
    case ByDevice(code, _, now) => HoldsCode(hash, reqs, k, code, p, now)
    case _ => false
  }

  /** Every token issued in any run, through however many refreshes, is for somebody who showed up. */
  lemma {:induction false} TokensNeedProof(hash: string -> string, reqs: seq<Request>, n: nat)
    requires n < |reqs| && FourDigits(reqs) && ReplyTo(hash, reqs, n).Issued?
    ensures exists k :: 0 <= k <= n && Shows(hash, reqs, k, ReplyTo(hash, reqs, n).principal)
    decreases n
  {
    var reply := ReplyTo(hash, reqs, n);
    hide FourDigits, HoldsCode, After, Serve, Asked, Wraps;
    match reqs[n]
    case ByPassword(_, _, _, _, _) =>
      PasswordShows(hash, reqs, n);
    case ByDevice(_, _, _) =>
      ExchangeIff(hash, reqs, n, reply.principal, reply.audience, reply.refresh);
      assert Shows(hash, reqs, n, reply.principal);
    case ByRefresh(token, _, now) =>
      var k := RefreshedFrom(hash, reqs, n);
      TokensNeedProof(hash, reqs, k);
    case _ => NoToken(hash, After(hash, reqs, n), reqs[n]);
  }

  lemma {:induction false} PasswordShows(hash: string -> string, reqs: seq<Request>, n: nat)
    requires n < |reqs| && reqs[n].ByPassword? && ReplyTo(hash, reqs, n).Issued?
    ensures Shows(hash, reqs, n, ReplyTo(hash, reqs, n).principal)
  {
    var reply := ReplyTo(hash, reqs, n);
    PasswordIff(hash, After(hash, reqs, n), reqs[n], reply.principal, reply.audience, reply.refresh);
    hide After, Serve;
  }

  lemma {:induction false} NoToken(hash: string -> string, t: Tables, r: Request)
    requires r.Start? || r.Approve?
    ensures !Serve(hash, t, r).reply.Issued?
  {
  }

  lemma {:induction false} RefreshedFrom(hash: string -> string, reqs: seq<Request>, n: nat) returns (k: nat)
    requires n < |reqs| && reqs[n].ByRefresh? && ReplyTo(hash, reqs, n).Issued?
    ensures k < n && ReplyTo(hash, reqs, k).Issued?
    ensures ReplyTo(hash, reqs, k).principal == ReplyTo(hash, reqs, n).principal
  {
    var reply := ReplyTo(hash, reqs, n);
    RefreshIff(hash, reqs, n, reply.principal, reply.audience, reply.refresh);
    hide After, Serve, Wraps;
    var core :| Wraps(reqs[n].token, core) && core != ""
                && Carried(hash, reqs, n, hash(core), reply.principal, reply.audience, reqs[n].now);
    k :| LastIssue(hash, reqs, k, n, hash(core)) && Said(hash, reqs, k, reply.principal, reply.audience);
  }
}
