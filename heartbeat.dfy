/** The liveness rule of a game session: every heartbeat interval the
    server checks how long ago it last heard a Ping or Pong frame, and
    either stops the session or sends a ping. Time is in milliseconds. */
module Heartbeat {

  /** `HEARTBEAT_INTERVAL`: 5 s between ticks. */
  const HeartbeatIntervalMs: nat := 5000

  /** `CLIENT_TIMEOUT`: 10 s of silence before the session is stopped. */
  const ClientTimeoutMs: nat := 10000

  /** `Instant::duration_since`: the time from since to now, zero when now
      is earlier. */
  function Elapsed(now: nat, since: nat): (d: nat)
    ensures since <= now ==> since + d == now
    ensures now < since ==> d == 0
  {
    if since <= now then now - since else 0
  }

  datatype TickAction = Stop | SendPing

  /** A heartbeat tick at time now, with the last Ping/Pong frame heard at hb. */
  function Tick(hb: nat, now: nat): (a: TickAction)
    ensures a == Stop <==> now > hb + ClientTimeoutMs
  {
    if Elapsed(now, hb) > ClientTimeoutMs then Stop else SendPing
  }

  /** A tick stops the session exactly when more than the timeout has passed
      since the last Ping/Pong frame. */
  lemma TickStopsIffTimedOut(hb: nat, now: nat)
    ensures Tick(hb, now) == Stop <==> now > hb + ClientTimeoutMs
  {
  }

  /** The time since the last frame grows with the clock and shrinks as
      the last frame moves later. */
  lemma ElapsedMonotone(now: nat, now': nat, since: nat, since': nat)
    requires now <= now' && since' <= since
    ensures Elapsed(now, since) <= Elapsed(now', since')
  {
  }

  /** Hearing from the client later never hastens a stop, and a tick that
      stops would also stop at any later time. */
  lemma LaterRefreshNoEarlierStop(hb: nat, hb': nat, now: nat, now': nat)
    requires hb <= hb' && now <= now'
    ensures Tick(hb', now) == Stop ==> Tick(hb, now') == Stop
  {
    ElapsedMonotone(now, now', hb', hb);
  }

  /** hb is set when the session is built, and the interval is started a
      little later, once the session runs (a delay d with 0 < d); its k-th
      run comes k intervals after that. With no Ping/Pong frame since hb,
      the first tick sends a ping and every tick from the second on stops
      the session, so a silent client is dropped about 10 s after it
      connected. */
  lemma SilentClientStoppedOnSecondTick(hb: nat, d: nat, k: nat)
    requires 0 < d <= HeartbeatIntervalMs
    requires k >= 1
    ensures Tick(hb, hb + d + k * HeartbeatIntervalMs) == Stop <==> k >= 2
  {
  }
}
