/** The login limiter: failures counted per address, a timed ban after three, lazy eviction of stale
    entries. Times are nanoseconds since the zero `time.Time`; the clock is read together with the
    locked body it serves, and never runs backwards. */
module LoginLimiter {
  import opened Options

  type Ip = string
  type Time = nat

  const MAX_FAILED_LOGINS := 3
  const LOGIN_BAN_DURATION: nat := 5 * 60 * 1_000_000_000
  const FAILURE_WINDOW := LOGIN_BAN_DURATION
  const MAX_DURATION: int := 0x7FFF_FFFF_FFFF_FFFF

  /** `time.Time.Sub`, which saturates at the largest duration. */
  function Sub(a: Time, b: Time): int {
    if a - b > MAX_DURATION then MAX_DURATION
    else if a - b < -MAX_DURATION - 1 then -MAX_DURATION - 1
    else a - b
  }

  datatype LoginAttempts = LoginAttempts(failures: nat, lastFailure: Time, bannedUntil: Time)

  /** A fresh entry holds zero times. */
  const NO_ATTEMPTS := LoginAttempts(0, 0, 0)

  type Table = map<Ip, LoginAttempts>

  function Lookup(t: Table, ip: Ip): Option<LoginAttempts> {
    if ip in t then Some(t[ip]) else None
  }

  predicate Evictable(e: LoginAttempts, now: Time) {
    now > e.bannedUntil && Sub(now, e.lastFailure) >= FAILURE_WINDOW
  }

  /** The table after a sweep that is due. */
  function Swept(t: Table, now: Time): Table {
    map ip | ip in t && !Evictable(t[ip], now) :: t[ip]
  }

  /** When the address may try again, if it is banned at `now`. */
  function BanOf(t: Table, ip: Ip, now: Time): Option<Time> {
    if ip in t && now < t[ip].bannedUntil then Some(t[ip].bannedUntil) else None
  }

  /** One more failure on an entry. */
  function Charge(e: LoginAttempts, now: Time): LoginAttempts {
    var n := (if Sub(now, e.lastFailure) >= FAILURE_WINDOW then 0 else e.failures) + 1;
    if n >= MAX_FAILED_LOGINS then LoginAttempts(0, now, now + LOGIN_BAN_DURATION)
    else LoginAttempts(n, now, e.bannedUntil)
  }

  function Failed(t: Table, ip: Ip, now: Time): Table {
    t[ip := Charge(Lookup(t, ip).GetOr(NO_ATTEMPTS), now)]
  }

  class Limiter {
    var byIP: Table
    var lastSweep: Time

    constructor ()
      ensures byIP == map[] && lastSweep == 0
    {
      byIP, lastSweep := map[], 0;
    }

    /** Evicts every stale entry, at most once per window. */
    method SweepAttempts(now: Time)
      modifies this
      ensures Sub(now, old(lastSweep)) < FAILURE_WINDOW ==> byIP == old(byIP) && lastSweep == old(lastSweep)
      ensures Sub(now, old(lastSweep)) >= FAILURE_WINDOW ==> byIP == Swept(old(byIP), now) && lastSweep == now
    {
      if Sub(now, lastSweep) < FAILURE_WINDOW {
        return;
      }
      lastSweep := now;
      var todo := byIP.Keys;
      while todo != {}
        invariant todo <= old(byIP.Keys)
        invariant byIP.Keys <= old(byIP.Keys)
        invariant lastSweep == now
        invariant forall ip :: ip in old(byIP) ==> (ip in byIP <==> ip in todo || !Evictable(old(byIP)[ip], now))
        invariant forall ip :: ip in byIP ==> byIP[ip] == old(byIP)[ip]
        decreases todo
      {
        var ip :| ip in todo;
        todo := todo - {ip};
        var entry := byIP[ip];
        if now > entry.bannedUntil && Sub(now, entry.lastFailure) >= FAILURE_WINDOW {
          byIP := byIP - {ip};
        }
      }
    }

    method LoginBannedUntil(ip: Ip, now: Time) returns (until: Option<Time>)
      modifies this
      ensures (byIP, lastSweep) == AfterCheck(old(byIP), old(lastSweep), now)
      ensures until == BanOf(byIP, ip, now)
    {
      SweepAttempts(now);
      if ip !in byIP || !(now < byIP[ip].bannedUntil) {
        return None;
      }
      return Some(byIP[ip].bannedUntil);
    }

    method RecordLoginFailure(ip: Ip, now: Time)
      modifies this
      ensures byIP == Failed(old(byIP), ip, now) && lastSweep == old(lastSweep)
    {
      var entry := NO_ATTEMPTS;
      if ip in byIP {
        entry := byIP[ip];
      }
      if Sub(now, entry.lastFailure) >= FAILURE_WINDOW {
        entry := entry.(failures := 0);
      }
      entry := entry.(failures := entry.failures + 1, lastFailure := now);
      if entry.failures >= MAX_FAILED_LOGINS {
        entry := entry.(bannedUntil := now + LOGIN_BAN_DURATION, failures := 0);
      }
      byIP := byIP[ip := entry];
    }

    method ClearLoginFailures(ip: Ip)
      modifies this
      ensures byIP == old(byIP) - {ip} && lastSweep == old(lastSweep)
    {
      byIP := byIP - {ip};
    }
  }

  /** What a check leaves behind: the sweep, when it is due. */
  function AfterCheck(t: Table, lastSweep: Time, now: Time): (Table, Time) {
    if Sub(now, lastSweep) < FAILURE_WINDOW then (t, lastSweep) else (Swept(t, now), now)
  }
}
