/** yomu/auth/beta_license.py: the beta licence store and its authorization decisions.

    The three SQLite tables are maps and a sequence; each public operation is one transaction. */
module BetaLicense {
  import opened Basics

  datatype State =
    | Active | Expired | Revoked | DeviceLimitReached | DeviceRevoked | NotEntitled
    | LicenseUnavailable | MalformedLicense | NotStarted | AuthRequired | AuthInvalid

  /** A timestamp as stored: its text, and the instant the text parses to, if it does. */
  datatype Stamp = Stamp(raw: string, instant: Option<int>)

  /** `parse_utc`: an empty text never parses. */
  function Parse(t: Stamp): Option<int> { if t.raw == "" then None else t.instant }

  /** The stored status after `casefold`. */
  datatype Status = StatusActive | StatusRevoked | StatusOther

  datatype Entitlement = Entitlement(
    id: string, status: Status, startsAt: Stamp, expiresAt: Stamp, revokedAt: Stamp, maxDevices: int)

  datatype Device = Device(firstSeen: Stamp, lastSeen: Stamp, revokedAt: Option<Stamp>)

  datatype Decision = Decision(
    allowed: bool, state: State, reason: string, user: string, device: string,
    entitlement: string, expiresAt: string, checkedAt: string, source: string, retryable: bool)
  {
    /** What `__post_init__` lets through. */
    predicate Coherent() { allowed <==> state == Active }
  }

  const AUTHORITY := "license_authority"

  function Deny(state: State, reason: string, user: string, device: string, checkedAt: string): (d: Decision)
    requires state != Active
    ensures d.Coherent() && !d.allowed
  {
    Decision(false, state, reason, user, device, "", "", checkedAt, AUTHORITY, false)
  }

  function Allow(user: string, device: string, row: Entitlement, checkedAt: string): (d: Decision)
    ensures d.Coherent() && d.allowed
  {
    Decision(true, Active, "active", user, device, row.id, row.expiresAt.raw, checkedAt, AUTHORITY, false)
  }

  // ---- one entitlement row -------------------------------------------------------------------

  /** `_entitlement_state`: the reason a row denies at an instant, None when it does not. */
  function Refusal(row: Entitlement, now: int): Option<(State, string)> {
    if row.status == StatusRevoked || row.revokedAt.raw != "" then Some((Revoked, "license_revoked"))
    else if row.status != StatusActive then Some((NotEntitled, "license_not_active"))
    else if Parse(row.startsAt).Some? && Parse(row.startsAt).value > now then Some((NotStarted, "license_not_started"))
    else if Parse(row.expiresAt).None? then Some((MalformedLicense, "missing_or_malformed_expiry"))
    else if now >= Parse(row.expiresAt).value then Some((Expired, "license_expired"))
    else if row.maxDevices < 1 then Some((MalformedLicense, "invalid_device_limit"))
    else None
  }

  /** A grant in force: active, never revoked, with a readable expiry and room for a device. */
  predicate InForce(row: Entitlement) {
    row.status == StatusActive && row.revokedAt.raw == "" && Parse(row.expiresAt).Some? && row.maxDevices >= 1
  }

  // ---- the store -----------------------------------------------------------------------------------

  type User = string
  type Fingerprint = string
  datatype Registered = Registered(user: User, device: Fingerprint, at: Stamp)

  datatype Store = Store(
    entitlements: map<(User, string), Entitlement>,
    devices: map<(User, Fingerprint), Device>,
    events: seq<Registered>)
  {
    function ActiveDevices(user: User): (active: set<(User, Fingerprint)>)
      ensures forall u, f :: (u, f) in active <==>
                u == user && (u, f) in devices && devices[(u, f)].revokedAt == None
    {
      set k | k in devices && k.0 == user && devices[k].revokedAt.None?
    }

    /** The upsert keeps the stored id on conflict. */
    function Upsert(user: User, channel: string, row: Entitlement): Store {
      var k := (user, channel);
      this.(entitlements := entitlements[k := if k in entitlements then row.(id := entitlements[k].id) else row])
    }

    /** An UPDATE: it marks an existing row and does nothing for an unknown device. */
    function RevokeDevice(user: User, device: Fingerprint, at: Stamp): Store {
      var k := (user, device);
      if k in devices then this.(devices := devices[k := devices[k].(revokedAt := Some(at))]) else this
    }

    function Seen(user: User, device: Fingerprint, now: Stamp): Store
      requires (user, device) in devices
    {
      this.(devices := devices[(user, device) := devices[(user, device)].(lastSeen := now)])
    }

    function Register(user: User, device: Fingerprint, now: Stamp): Store {
      this.(devices := devices[(user, device) := Device(now, now, None)],
            events := events + [Registered(user, device, now)])
    }

    /** `authorize`; `clock` is the time the process itself would write. */
    function Authorize(user: User, device: Fingerprint, now: Stamp, channel: string, clock: string): (Store, Decision) {
      if user == "" then (this, Deny(AuthRequired, "auth_required", "", "", clock))
      else if device == "" then (this, Deny(MalformedLicense, "device_fingerprint_required", user, "", clock))
      else if Parse(now).None? then (this, Deny(MalformedLicense, "malformed_authority_time", user, device, clock))
      else if (user, channel) !in entitlements then (this, Deny(NotEntitled, "not_entitled", user, device, now.raw))
      else
        var row := entitlements[(user, channel)];
        var refusal := Refusal(row, Parse(now).value);
        if refusal.Some? then (this, Deny(refusal.value.0, refusal.value.1, user, device, now.raw))
        else if (user, device) in devices then
          if devices[(user, device)].revokedAt.Some?
          then (this, Deny(DeviceRevoked, "device_revoked", user, device, now.raw))
          else (Seen(user, device, now), Allow(user, device, row, now.raw))
        else if |ActiveDevices(user)| >= row.maxDevices then
          (this, Deny(DeviceLimitReached, "device_limit_reached", user, device, now.raw))
        else (Register(user, device, now), Allow(user, device, row, now.raw))
    }
  }

  // ---- exactly when access is granted -------------------------------------------------------------

  /** Access is granted exactly when the grant is in force, the time is inside the half-open window
      (an unreadable start does not delay it), and the device is a live registered one or there
      is room for one more. The decision is coherent on every path. */
  lemma AllowedExactly(s: Store, user: User, device: Fingerprint, now: Stamp, channel: string, clock: string)
    ensures var d := s.Authorize(user, device, now, channel, clock).1;
            && d.Coherent()
            && (d.allowed <==>
                && user != "" && device != "" && now.raw != "" && now.instant.Some?
                && (user, channel) in s.entitlements
                && (var row, t := s.entitlements[(user, channel)], Parse(now).value;
                    && InForce(row)
                    && (Parse(row.startsAt).Some? ==> Parse(row.startsAt).value <= t)
                    && t < Parse(row.expiresAt).value
                    && (if (user, device) in s.devices then s.devices[(user, device)].revokedAt.None?
                        else |s.ActiveDevices(user)| < row.maxDevices)))
  {}

  /** The reasons that no row gives. */
  const GENERAL := ["auth_required", "device_fingerprint_required", "malformed_authority_time", "not_entitled"]

  /** Everything authorization asks for before it looks at a grant. */
  predicate Asked(user: User, device: Fingerprint, now: Stamp) { user != "" && device != "" && Parse(now).Some? }

  /** Which denial is given, on every path: the first of these conditions to hold, in this order. */
  lemma DeniedExactly(s: Store, user: User, device: Fingerprint, now: Stamp, channel: string, clock: string)
    ensures var d, granted := s.Authorize(user, device, now, channel, clock).1, (user, channel) in s.entitlements;
            && (user == "" <==> d.reason == "auth_required")
            && (user != "" && device == "" <==> d.reason == "device_fingerprint_required")
            && (user != "" && device != "" && (now.raw == "" || now.instant.None?)
                <==> d.reason == "malformed_authority_time")
            && (Asked(user, device, now) && !granted <==> d.reason == "not_entitled")
            && (Asked(user, device, now) && granted ==>
                  DeniedByGrant(d.reason, s.entitlements[(user, channel)], Parse(now).value)
                  || (InTime(s.entitlements[(user, channel)], Parse(now).value)
                      && DeniedByDevice(s, d, user, device, channel)))
            && d.state == StateOf(d.reason)
  {
    if Asked(user, device, now) && (user, channel) in s.entitlements {
      RefusalExactly(s.entitlements[(user, channel)], Parse(now).value);
    }
  }

  /** Which denial a row gives. */
  lemma RefusalExactly(row: Entitlement, t: int)
    ensures Refusal(row, t).None? <==> InTime(row, t)
    ensures Refusal(row, t).Some? ==>
              var (state, reason) := Refusal(row, t).value;
              DeniedByGrant(reason, row, t) && state == StateOf(reason) && reason !in GENERAL
  {}

  /** The grant was revoked, is not active, not started, has no readable expiry, is over, or allows no device. */
  ghost predicate DeniedByGrant(reason: string, row: Entitlement, t: int) {
    var revoked := row.status == StatusRevoked || row.revokedAt.raw != "";
    var early := Parse(row.startsAt).Some? && t < Parse(row.startsAt).value;
    match reason
    case "license_revoked" => revoked
    case "license_not_active" => !revoked && row.status != StatusActive
    case "license_not_started" => !revoked && row.status == StatusActive && early
    case "missing_or_malformed_expiry" =>
      !revoked && row.status == StatusActive && !early && Parse(row.expiresAt).None?
    case "license_expired" =>
      && !revoked && row.status == StatusActive && !early
      && Parse(row.expiresAt).Some? && Parse(row.expiresAt).value <= t
    case "invalid_device_limit" =>
      && !revoked && row.status == StatusActive && !early
      && Parse(row.expiresAt).Some? && t < Parse(row.expiresAt).value && row.maxDevices <= 0
    case _ => false
  }

  ghost predicate InTime(row: Entitlement, t: int) {
    && InForce(row) && (Parse(row.startsAt).Some? ==> Parse(row.startsAt).value <= t) && t < Parse(row.expiresAt).value
  }

  /** The device was revoked, is one too many, or is let in. */
  ghost predicate DeniedByDevice(s: Store, d: Decision, user: User, device: Fingerprint, channel: string)
    requires (user, channel) in s.entitlements
  {
    var known := (user, device) in s.devices;
    var room := |s.ActiveDevices(user)| < s.entitlements[(user, channel)].maxDevices;
    match d.reason
    case "device_revoked" => known && s.devices[(user, device)].revokedAt.Some?
    case "device_limit_reached" => !known && !room
    case "active" => if known then s.devices[(user, device)].revokedAt.None? else room
    case _ => false
  }

  /** The state that goes with a reason. */
  function StateOf(reason: string): State {
    match reason
    case "auth_required" => AuthRequired
    case "not_entitled" => NotEntitled
    case "license_revoked" => Revoked
    case "license_not_active" => NotEntitled
    case "license_not_started" => NotStarted
    case "license_expired" => Expired
    case "device_revoked" => DeviceRevoked
    case "device_limit_reached" => DeviceLimitReached
    case "active" => Active
    case _ => MalformedLicense
  }

  /** What a request writes: nothing when denied, the time on a known device, and a row and an event for a new
      one; and what an allowed one returns. */
  lemma TablesExactly(s: Store, user: User, device: Fingerprint, now: Stamp, channel: string, clock: string)
    ensures var (s', d) := s.Authorize(user, device, now, channel, clock);
            var k := (user, device);
            && s'.entitlements == s.entitlements
            && d.user == user && d.device == (if user == "" then "" else device)
            && d.checkedAt == (if Asked(user, device, now) then now.raw else clock)
            && d.source == "license_authority" && !d.retryable
            && (!d.allowed ==> s' == s && d.entitlement == "" && d.expiresAt == "")
            && (d.allowed ==>
                  && k in s'.devices && s'.devices == s.devices[k := s'.devices[k]]
                  && s'.devices[k].lastSeen == now && s'.devices[k].revokedAt == None
                  && (user, channel) in s.entitlements && d.entitlement == s.entitlements[(user, channel)].id
                  && d.expiresAt == s.entitlements[(user, channel)].expiresAt.raw)
            && (d.allowed && k in s.devices ==>
                  s'.devices[k].firstSeen == s.devices[k].firstSeen && s'.events == s.events)
            && (d.allowed && k !in s.devices ==>
                  s'.devices[k].firstSeen == now && s'.events == s.events + [Registered(user, device, now)])
  {}

  /** A grant replaces everything of the row that stood for its user and channel but the id, and no other row. */
  lemma UpsertExactly(s: Store, user: User, channel: string, row: Entitlement)
    ensures var s', k := s.Upsert(user, channel, row), (user, channel);
            && s'.devices == s.devices && s'.events == s.events && k in s'.entitlements
            && (forall j :: j != k ==>
                  (j in s'.entitlements <==> j in s.entitlements)
                  && (j in s.entitlements ==> s'.entitlements[j] == s.entitlements[j]))
            && (var now := s'.entitlements[k];
                && now.status == row.status && now.startsAt == row.startsAt && now.expiresAt == row.expiresAt
                && now.revokedAt == row.revokedAt && now.maxDevices == row.maxDevices
                && now.id == if k in s.entitlements then s.entitlements[k].id else row.id)
  {}

  /** Revoking marks one device, if there is one, and changes nothing else of it or of any other. */
  lemma RevokeExactly(s: Store, user: User, device: Fingerprint, at: Stamp)
    ensures var s', k := s.RevokeDevice(user, device, at), (user, device);
            if k !in s.devices then s' == s
            else && s'.entitlements == s.entitlements && s'.events == s.events
                 && k in s'.devices && s'.devices == s.devices[k := s'.devices[k]]
                 && s'.devices[k] == Device(s.devices[k].firstSeen, s.devices[k].lastSeen, Some(at))
  {}

  /** For a registered live device under a grant in force, the allowed times are exactly the half-open
      window from start (or for ever before, without a readable one) to expiry. */
  lemma AllowedTimesAreAWindow(s: Store, user: User, device: Fingerprint, channel: string, clock: string, now: Stamp)
    requires user != "" && device != "" && (user, channel) in s.entitlements && InForce(s.entitlements[(user, channel)])
    requires (user, device) in s.devices && s.devices[(user, device)].revokedAt.None? && Parse(now).Some?
    ensures var row, t := s.entitlements[(user, channel)], Parse(now).value;
            s.Authorize(user, device, now, channel, clock).1.allowed
            <==> (Parse(row.startsAt).None? || Parse(row.startsAt).value <= t) && t < Parse(row.expiresAt).value
  {
    AllowedExactly(s, user, device, now, channel, clock);
  }

  /** Asking again at the same time gives the same answer and changes nothing more. */
  lemma AskingAgainChangesNothing(s: Store, user: User, device: Fingerprint, now: Stamp, channel: string, clock: string)
    ensures var (s', d) := s.Authorize(user, device, now, channel, clock);
            s'.Authorize(user, device, now, channel, clock) == (s', d)
  {
    var (s', d) := s.Authorize(user, device, now, channel, clock);
    if d.allowed {
      assert s'.Seen(user, device, now).devices == s'.devices;
    }
  }

  // ---- runs -------------------------------------------------------------------------------------------

  datatype Op =
    | Grant(user: User, channel: string, row: Entitlement)
    | Revoke(user: User, device: Fingerprint, at: Stamp)
    | Ask(user: User, device: Fingerprint, now: Stamp, channel: string, clock: string)

  function Apply(s: Store, op: Op): Store {
    match op
    case Grant(user, channel, row) => s.Upsert(user, channel, row)
    case Revoke(user, device, at) => s.RevokeDevice(user, device, at)
    case Ask(user, device, now, channel, clock) => s.Authorize(user, device, now, channel, clock).0
  }

  function Run(s: Store, ops: seq<Op>): Store
    decreases |ops|
  {
    if ops == [] then s else Run(Apply(s, ops[0]), ops[1..])
  }

  const EMPTY := Store(map[], map[], [])

  /** Every device row has exactly one registration event, and every event has its row. */
  ghost predicate EventsMatchRows(s: Store) {
    && (forall e :: e in s.events ==> (e.user, e.device) in s.devices)
    && (forall k :: k in s.devices ==> exists e :: e in s.events && (e.user, e.device) == k)
    && (forall i, j :: 0 <= i < j < |s.events| ==>
          (s.events[i].user, s.events[i].device) != (s.events[j].user, s.events[j].device))
  }

  lemma RegisterKeepsEvents(s: Store, user: User, device: Fingerprint, now: Stamp)
    requires EventsMatchRows(s) && (user, device) !in s.devices
    ensures EventsMatchRows(s.Register(user, device, now))
  {
    var s', e := s.Register(user, device, now), Registered(user, device, now);
    assert s'.events == s.events + [e];
    assert forall i :: 0 <= i < |s.events| ==> s.events[i] in s.events;
    forall k | k in s'.devices ensures exists e :: e in s'.events && (e.user, e.device) == k {
      if k in s.devices {
        var known :| known in s.events && (known.user, known.device) == k;
        assert known in s'.events;
      } else {
        assert e in s'.events;
      }
    }
  }

  lemma StepKeepsEvents(s: Store, op: Op)
    requires EventsMatchRows(s)
    ensures EventsMatchRows(Apply(s, op))
  {
    if op.Ask? && Apply(s, op).events != s.events {
      RegisterKeepsEvents(s, op.user, op.device, op.now);
    }
  }

  /** In every run from an empty store, registrations and device rows correspond one to one. */
  lemma {:induction false} RegistrationsAreTheDevices(s: Store, ops: seq<Op>)
    requires EventsMatchRows(s)
    ensures EventsMatchRows(Run(s, ops))
    decreases |ops|
  {
    if ops != [] {
      StepKeepsEvents(s, ops[0]);
      RegistrationsAreTheDevices(Apply(s, ops[0]), ops[1..]);
    }
  }

  // ---- the device cap -----------------------------------------------------------------------------

  lemma RegisterAddsOne(s: Store, user: User, device: Fingerprint, now: Stamp)
    requires (user, device) !in s.devices
    ensures |s.Register(user, device, now).ActiveDevices(user)| == |s.ActiveDevices(user)| + 1
  {
    assert s.Register(user, device, now).ActiveDevices(user) == s.ActiveDevices(user) + {(user, device)};
  }

  /** A call that registers a device leaves the user's active devices within that entitlement. */
  lemma RegisteringRespectsTheCap(s: Store, user: User, device: Fingerprint, now: Stamp, channel: string, clock: string)
    requires (user, device) !in s.devices
    requires (user, device) in s.Authorize(user, device, now, channel, clock).0.devices
    ensures (user, channel) in s.entitlements
    ensures |s.Authorize(user, device, now, channel, clock).0.ActiveDevices(user)|
         <= s.entitlements[(user, channel)].maxDevices
  {
    RegisterAddsOne(s, user, device, now);
    assert s.Authorize(user, device, now, channel, clock).0 == s.Register(user, device, now);
  }

  lemma StepKeepsCap(s: Store, op: Op, user: User, cap: nat)
    requires |s.ActiveDevices(user)| <= cap
    requires forall k :: k in s.entitlements && k.0 == user ==> s.entitlements[k].maxDevices <= cap
    requires op.Grant? && op.user == user ==> op.row.maxDevices <= cap
    ensures var s' := Apply(s, op);
            && |s'.ActiveDevices(user)| <= cap
            && forall k :: k in s'.entitlements && k.0 == user ==> s'.entitlements[k].maxDevices <= cap
  {
    var s' := Apply(s, op);
    if op.Ask? && op.user == user && (user, op.device) !in s.devices && (user, op.device) in s'.devices {
      RegisteringRespectsTheCap(s, user, op.device, op.now, op.channel, op.clock);
    } else {
      SubsetSize(s'.ActiveDevices(user), s.ActiveDevices(user));
    }
  }

  /** However grants, revocations and requests interleave, on any number of channels: a user whose
      grants never exceed `cap` devices never has more than `cap` active ones. */
  lemma {:induction false} CapHoldsOverRuns(s: Store, ops: seq<Op>, user: User, cap: nat)
    requires |s.ActiveDevices(user)| <= cap
    requires forall k :: k in s.entitlements && k.0 == user ==> s.entitlements[k].maxDevices <= cap
    requires forall op :: op in ops && op.Grant? && op.user == user ==> op.row.maxDevices <= cap
    ensures |Run(s, ops).ActiveDevices(user)| <= cap
    decreases |ops|
  {
    if ops != [] {
      StepKeepsCap(s, ops[0], user, cap);
      CapHoldsOverRuns(Apply(s, ops[0]), ops[1..], user, cap);
    }
  }

  // ---- revocation is final -------------------------------------------------------------------------

  ghost predicate Banned(s: Store, user: User, device: Fingerprint) {
    (user, device) in s.devices && s.devices[(user, device)].revokedAt.Some?
  }

  lemma {:induction false} BannedStaysBanned(s: Store, ops: seq<Op>, user: User, device: Fingerprint)
    requires Banned(s, user, device)
    ensures Banned(Run(s, ops), user, device)
    decreases |ops|
  {
    if ops != [] { BannedStaysBanned(Apply(s, ops[0]), ops[1..], user, device); }
  }

  /** After any later operations, no request by the device is allowed, at any time, on any channel. */
  ghost predicate NeverAllowedAgain(s: Store, user: User, device: Fingerprint) {
    forall ops: seq<Op>, now: Stamp, channel: string, clock: string ::
      !Run(s, ops).Authorize(user, device, now, channel, clock).1.allowed
  }

  /** Revoking a device bars it for ever exactly when it was registered before the call: revoking
      an unknown fingerprint is forgotten, and a later request can still register it. */
  lemma RevocationIsFinalExactlyWhenRegistered(s: Store, user: User, device: Fingerprint, at: Stamp)
    requires user != "" && device != ""
    ensures NeverAllowedAgain(s.RevokeDevice(user, device, at), user, device) <==> (user, device) in s.devices
  {
    var s' := s.RevokeDevice(user, device, at);
    if (user, device) in s.devices {
      forall ops: seq<Op>, now: Stamp, channel: string, clock: string
        ensures !Run(s', ops).Authorize(user, device, now, channel, clock).1.allowed
      {
        BannedStaysBanned(s', ops, user, device);
      }
    } else {
      var row := Entitlement("grant", StatusActive, Stamp("", None), Stamp("1", Some(1)), Stamp("", None),
                             |s.ActiveDevices(user)| + 1);
      var ops := [Grant(user, "beta", row)];
      var now := Stamp("0", Some(0));
      assert ops[1..] == [];
      var granted := Run(s', ops);
      assert Run(Apply(s', ops[0]), ops[1..]) == Apply(s', ops[0]);
      assert granted == s'.Upsert(user, "beta", row);
      assert granted.ActiveDevices(user) == s.ActiveDevices(user);
      assert granted.Authorize(user, device, now, "beta", "").1.allowed;
    }
  }

  // ---- responses of the remote authority -------------------------------------------------------------

  function Name(s: State): string {
    match s
    case Active => "active"
    case Expired => "expired"
    case Revoked => "revoked"
    case DeviceLimitReached => "device_limit_reached"
    case DeviceRevoked => "device_revoked"
    case NotEntitled => "not_entitled"
    case LicenseUnavailable => "license_unavailable"
    case MalformedLicense => "malformed_license"
    case NotStarted => "not_started"
    case AuthRequired => "auth_required"
    case AuthInvalid => "auth_invalid"
  }

  const STATES := [Active, Expired, Revoked, DeviceLimitReached, DeviceRevoked, NotEntitled,
                   LicenseUnavailable, MalformedLicense, NotStarted, AuthRequired, AuthInvalid]

  function Find(name: string, states: seq<State>): Option<State> {
    if states == [] then None
    else if Name(states[0]) == name then Some(states[0])
    else Find(name, states[1..])
  }

  /** `LicenseState(text)`. */
  function StateNamed(name: string): Option<State> { Find(name, STATES) }

  lemma {:induction false} FindFinds(s: State, states: seq<State>)
    requires s in states
    ensures Find(Name(s), states) == Some(s)
  {
    if states[0] != s {
      assert Name(states[0]) != Name(s) by { NamesDiffer(states[0], s); }
      FindFinds(s, states[1..]);
    }
  }

  lemma NamesDiffer(a: State, b: State)
    requires a != b
    ensures Name(a) != Name(b)
  {
    assert |Name(a)| == |Name(b)| ==> Name(a)[0] != Name(b)[0];
  }

  /** A response: a decision object, something that is no mapping, or a mapping whose missing
      fields read as empty texts. */
  datatype Response =
    | Ready(decision: Decision)
    | NotAMapping
    | Fields(state: string, allowed: bool, reason: string, user: string, device: string, entitlement: string,
             expiresAt: string, checkedAt: string, source: string, retryable: bool)

  function Or(text: string, fallback: string): string { if text == "" then fallback else text }

  /** `validate_authorization_response`. */
  function Validate(r: Response, clock: string): Decision {
    match r
    case Ready(d) => d
    case NotAMapping => Deny(MalformedLicense, "malformed_license_response", "", "", clock)
    case Fields(state, allowed, reason, user, device, entitlement, expiresAt, checkedAt, source, retryable) =>
      match StateNamed(state)
      case None => Deny(MalformedLicense, "malformed_license_state", "", "", clock)
      case Some(st) =>
        var d := Decision(allowed, st, Or(reason, Name(st)), user, device, entitlement, expiresAt,
                          Or(checkedAt, clock), Or(source, AUTHORITY), retryable);
        if d.Coherent() then d else Deny(MalformedLicense, "incoherent_license_response", "", "", clock)
  }

  /** `to_safe_job_metadata`. */
  function Metadata(d: Decision): Response {
    Fields(Name(d.state), d.allowed, d.reason, d.user, d.device, d.entitlement, d.expiresAt, d.checkedAt, d.source,
           d.retryable)
  }

  /** Whatever the authority answers, an allowed result is ACTIVE and came from fields saying so. */
  lemma ValidateFailsClosed(r: Response, clock: string)
    requires r.Ready? ==> r.decision.Coherent()
    ensures var d := Validate(r, clock);
            && d.Coherent()
            && (d.allowed ==> r.Ready? || (r.Fields? && r.allowed && StateNamed(r.state) == Some(Active)))
  {}

  /** What a response reads as: fields whose state has a name and goes with `allowed` are taken over, the empty
      ones of three filled in; everything else is malformed, and says why. */
  lemma ValidateExactly(r: Response, clock: string)
    requires !r.Ready?
    ensures var d := Validate(r, clock);
            if r.Fields? && StateNamed(r.state).Some? && (r.allowed <==> r.state == "active") then
              && (d.allowed, d.state, d.user, d.device) == (r.allowed, StateNamed(r.state).value, r.user, r.device)
              && (d.entitlement, d.expiresAt, d.retryable) == (r.entitlement, r.expiresAt, r.retryable)
              && d.reason == (if r.reason == "" then r.state else r.reason)
              && d.checkedAt == (if r.checkedAt == "" then clock else r.checkedAt)
              && d.source == (if r.source == "" then "license_authority" else r.source)
            else
              && (d.allowed, d.state, d.user, d.device) == (false, MalformedLicense, "", "")
              && (d.entitlement, d.expiresAt, d.checkedAt) == ("", "", clock) && !d.retryable
              && d.reason == if r.NotAMapping? then "malformed_license_response"
                             else if StateNamed(r.state).None? then "malformed_license_state"
                             else "incoherent_license_response"
  {
    if r.Fields? {
      ActiveByName(r.state);
      FoundHasName(r.state, STATES);
    }
  }

  /** The text an authority names each state by; no other text names it. */
  lemma NamesExactly(name: string, s: State)
    ensures StateNamed(name) == Some(s) <==>
              match s
              case Active => name == "active"
              case Expired => name == "expired"
              case Revoked => name == "revoked"
              case DeviceLimitReached => name == "device_limit_reached"
              case DeviceRevoked => name == "device_revoked"
              case NotEntitled => name == "not_entitled"
              case LicenseUnavailable => name == "license_unavailable"
              case MalformedLicense => name == "malformed_license"
              case NotStarted => name == "not_started"
              case AuthRequired => name == "auth_required"
              case AuthInvalid => name == "auth_invalid"
  {
    FindFinds(s, STATES);
    FoundHasName(name, STATES);
  }

  /** A decision stored as job metadata reads back as itself exactly when its reason, its
      checked-at text and its source are all non-empty. */
  lemma MetadataReadsBackExactly(d: Decision, clock: string)
    requires d.Coherent() && clock != ""
    ensures Validate(Metadata(d), clock) == d <==> d.reason != "" && d.checkedAt != "" && d.source != ""
  {
    FindFinds(d.state, STATES);
  }

  // ---- the remote authorizer ----------------------------------------------------------------------------

  /** The body of a reply: nothing, bytes that do not decode, one value, or a list of them. */
  datatype Body = Empty | Garbled | One(value: Response) | Many(values: seq<Response>)
  datatype Reply = Unreachable | Reply(status: int, body: Body)

  /** The value a body is read as: the first of a list, a mapping without fields for an empty list. */
  function Reading(body: Body): Response {
    match body
    case One(value) => value
    case Many(values) => if values == [] then Fields("", false, "", "", "", "", "", "", "", false) else values[0]
    case _ => NotAMapping
  }

  function Retryable(d: Decision, retryable: bool): Decision { d.(retryable := retryable) }

  /** `SupabaseBetaLicenseAuthorizer.authorize`. */
  function RemoteDecision(authenticated: bool, user: User, token: string, device: Fingerprint, reply: Reply,
                          clock: string): Decision
  {
    if !authenticated then Deny(AuthRequired, "auth_required", "", "", clock)
    else if token == ""
    then Retryable(Deny(LicenseUnavailable, "license_access_token_unavailable", user, "", clock), true)
    else match reply
      case Unreachable => Retryable(Deny(LicenseUnavailable, "license_service_unavailable", user, device, clock), true)
      case Reply(status, body) =>
        if body.Garbled? then Deny(MalformedLicense, "malformed_license_response", user, device, clock)
        else if status == 401 then Deny(AuthRequired, "auth_required", "", "", clock)
        else if status == 403 || status == 404 then Deny(NotEntitled, "license_not_entitled", user, device, clock)
        else if status >= 400 then
          Retryable(Deny(LicenseUnavailable, "license_service_unavailable", user, device, clock),
                    status >= 500 || status == 429)
        else
          var d := Validate(Reading(body), clock);
          if d.user != "" && d.user != user
          then Deny(MalformedLicense, "license_user_mismatch", user, device, clock) else d
  }

  /** The remote path grants access exactly when an authenticated user with a token gets a readable reply
      below 400 whose (first) mapping says allowed and "active", for that user or for no user at all;
      everything else fails closed. */
  lemma RemoteAllowedExactly(authenticated: bool, user: User, token: string, device: Fingerprint, reply: Reply,
                             clock: string)
    requires reply.Reply? ==> !Reading(reply.body).Ready?
    ensures var d := RemoteDecision(authenticated, user, token, device, reply, clock);
            && d.Coherent()
            && (d.allowed <==>
                && authenticated && token != "" && reply.Reply? && reply.status < 400 && !reply.body.Garbled?
                && (var r := Reading(reply.body);
                    r.Fields? && r.allowed && r.state == "active" && (r.user == "" || r.user == user)))
  {
    if reply.Reply? && Reading(reply.body).Fields? {
      ActiveByName(Reading(reply.body).state);
    }
  }

  /** Which denial the remote path gives, and whether it may be tried again. */
  lemma RemoteDeniedExactly(authenticated: bool, user: User, token: string, device: Fingerprint, reply: Reply,
                            clock: string)
    ensures var d := RemoteDecision(authenticated, user, token, device, reply, clock);
            && (!authenticated ==> d.reason == "auth_required" && d.state == AuthRequired && !d.retryable)
            && (authenticated && token == "" ==>
                  d.reason == "license_access_token_unavailable" && d.state == LicenseUnavailable && d.retryable)
            && (authenticated && token != "" ==>
                  && (reply.Unreachable? ==>
                        d.reason == "license_service_unavailable" && d.state == LicenseUnavailable && d.retryable)
                  && (reply.Reply? && reply.body.Garbled? ==>
                        d.reason == "malformed_license_response" && d.state == MalformedLicense && !d.retryable)
                  && (reply.Reply? && !reply.body.Garbled? ==>
                        && (reply.status == 401 ==> d.state == AuthRequired && d.reason == "auth_required")
                        && (reply.status in {403, 404} ==> d.state == NotEntitled && d.reason == "license_not_entitled")
                        && (reply.status >= 400 && reply.status !in {401, 403, 404} ==>
                              && d.state == LicenseUnavailable && d.reason == "license_service_unavailable"
                              && (d.retryable <==> reply.status == 429 || reply.status >= 500))
                        && (reply.status < 400 ==>
                              var answer := Validate(Reading(reply.body), clock);
                              if answer.user in {"", user} then d == answer
                              else d.state == MalformedLicense && d.reason == "license_user_mismatch")))
  {}

  /** Of a list only the first element counts, and an empty one is a mapping without fields. */
  lemma ListReadsAsFirst(values: seq<Response>, clock: string)
    ensures var d := Validate(Reading(Many(values)), clock);
            if values != [] then d == Validate(Reading(One(values[0])), clock)
            else d == Deny(MalformedLicense, "malformed_license_state", "", "", clock)
  {
    if values == [] { NoStateUnnamed(STATES); }
  }

  lemma {:induction false} NoStateUnnamed(states: seq<State>)
    ensures Find("", states) == None
  {
    if states != [] {
      assert Name(states[0]) != "";
      NoStateUnnamed(states[1..]);
    }
  }

  /** Whom a denial names: nobody where the user is not known, no device where there is no token. */
  lemma RemoteNames(authenticated: bool, user: User, token: string, device: Fingerprint, reply: Reply, clock: string)
    requires authenticated && token != "" && reply.Reply? && !reply.body.Garbled? && reply.status < 400 ==>
               Validate(Reading(reply.body), clock).user !in {"", user}
    ensures var d := RemoteDecision(authenticated, user, token, device, reply, clock);
            var unknown := !authenticated
                           || (token != "" && reply.Reply? && !reply.body.Garbled? && reply.status == 401);
            && d.user == (if unknown then "" else user)
            && d.device == (if unknown || token == "" then "" else device)
            && (d.entitlement, d.expiresAt, d.checkedAt, d.source) == ("", "", clock, "license_authority")
  {}

  lemma ActiveByName(name: string)
    ensures StateNamed(name) == Some(Active) <==> name == "active"
  {
    FindFinds(Active, STATES);
    FoundHasName(name, STATES);
  }

  lemma {:induction false} FoundHasName(name: string, states: seq<State>)
    ensures Find(name, states).Some? ==> Name(Find(name, states).value) == name
  {
    if states != [] { FoundHasName(name, states[1..]); }
  }

  // ---- the store object --------------------------------------------------------------------------------

  class SQLiteBetaLicenseStore {
    var entitlements: map<(User, string), Entitlement>
    var devices: map<(User, Fingerprint), Device>
    var events: seq<Registered>

    ghost function View(): Store
      reads this
    {
      Store(entitlements, devices, events)
    }

    constructor ()
      ensures View() == EMPTY && EventsMatchRows(View())
    {
      entitlements, devices, events := map[], map[], [];
    }

    /** Returns the id of the row offered, which is the stored id only when the row was new. */
    method UpsertEntitlement(user: User, channel: string, row: Entitlement) returns (id: string)
      modifies `entitlements
      ensures View() == old(View()).Upsert(user, channel, row)
      ensures id == row.id
      ensures id == entitlements[(user, channel)].id
          <==> ((user, channel) in old(entitlements) ==> old(entitlements)[(user, channel)].id == row.id)
    {
      var k := (user, channel);
      if k in entitlements {
        entitlements := entitlements[k := row.(id := entitlements[k].id)];
      } else {
        entitlements := entitlements[k := row];
      }
      id := row.id;
    }

    method RevokeDevice(user: User, device: Fingerprint, at: Stamp)
      modifies `devices
      ensures View() == old(View()).RevokeDevice(user, device, at)
    {
      if (user, device) in devices {
        devices := devices[(user, device) := devices[(user, device)].(revokedAt := Some(at))];
      }
    }

    method Authorize(user: User, device: Fingerprint, now: Stamp, channel: string, clock: string) returns (d: Decision)
      modifies `devices, `events
      ensures (View(), d) == old(View()).Authorize(user, device, now, channel, clock)
      ensures old(EventsMatchRows(View())) ==> EventsMatchRows(View())
    {
      ghost var before := View();
      d := Decide(user, device, now, channel, clock);
      if EventsMatchRows(before) { StepKeepsEvents(before, Ask(user, device, now, channel, clock)); }
    }

    /** The body of `authorize`. */
    method Decide(user: User, device: Fingerprint, now: Stamp, channel: string, clock: string) returns (d: Decision)
      modifies `devices, `events
      ensures (View(), d) == old(View()).Authorize(user, device, now, channel, clock)
    {
      if user == "" { return Deny(AuthRequired, "auth_required", "", "", clock); }
      if device == "" { return Deny(MalformedLicense, "device_fingerprint_required", user, "", clock); }
      var current := Parse(now);
      if current.None? { return Deny(MalformedLicense, "malformed_authority_time", user, device, clock); }
      if (user, channel) !in entitlements { return Deny(NotEntitled, "not_entitled", user, device, now.raw); }
      var row := entitlements[(user, channel)];
      var refusal := Refusal(row, current.value);
      if refusal.Some? { return Deny(refusal.value.0, refusal.value.1, user, device, now.raw); }
      if (user, device) in devices {
        if devices[(user, device)].revokedAt.Some? {
          return Deny(DeviceRevoked, "device_revoked", user, device, now.raw);
        }
        devices := devices[(user, device) := devices[(user, device)].(lastSeen := now)];
        return Allow(user, device, row, now.raw);
      }
      var active := set k | k in devices && k.0 == user && devices[k].revokedAt.None?;
      if |active| >= row.maxDevices {
        return Deny(DeviceLimitReached, "device_limit_reached", user, device, now.raw);
      }
      devices := devices[(user, device) := Device(now, now, None)];
      events := events + [Registered(user, device, now)];
      d := Allow(user, device, row, now.raw);
    }
  }
}
