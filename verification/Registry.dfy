/** The gateway's registry of live connections, over every interleaving of connects and exits. */
module Registry {
  import opened Text

  type Target = string

  /** One accepted websocket; connections are told apart by identity. */
  type Connection = int

  datatype Event = Register(target: Target, connection: Connection) | Unregister(target: Target, connection: Connection)

  class HubServer {
    var conns: map<Target, Connection>

    constructor ()
      ensures conns == map[]
    {
      conns := map[];
    }

    method Register(target: Target, connection: Connection)
      modifies this
      ensures conns == After(old(conns), Event.Register(target, connection))
    {
      conns := conns[target := connection];
    }

    /** Removes the registration of the target if it is this connection's own; only then is the
        target reported offline. */
    method Unregister(target: Target, connection: Connection) returns (owned: bool)
      modifies this
      ensures conns == After(old(conns), Event.Unregister(target, connection))
      ensures owned <==> target in old(conns) && target !in conns
    {
      owned := target in conns && conns[target] == connection;
      if owned {
        conns := conns - {target};
      }
    }

    /** The connection a dispatch is written to, if the target has one. */
    method LookUp(target: Target) returns (connection: Option<Connection>)
      ensures connection == if target in conns then Some(conns[target]) else None
    {
      if target !in conns {
        return None;
      }
      connection := Some(conns[target]);
    }
  }

  function After(conns: map<Target, Connection>, e: Event): map<Target, Connection> {
    match e
    case Register(t, c) => conns[t := c]
    case Unregister(t, c) => if t in conns && conns[t] == c then conns - {t} else conns
  }

  /** The registry after a history of events. */
  function Run(history: seq<Event>): map<Target, Connection> {
    if history == [] then map[] else After(Run(history[..|history| - 1]), history[|history| - 1])
  }

  /** `c` registered for `t` as the i-th event, nothing registered for `t` since, and it has not left. */
  ghost predicate NewestAndLive(history: seq<Event>, t: Target, c: Connection, i: int) {
    && 0 <= i < |history| && history[i] == Event.Register(t, c)
    && forall j :: i < j < |history| && history[j].target == t ==> history[j].Unregister? && history[j].connection != c
  }

  /** Whatever the order of connects and exits, a target's entry is the connection that registered
      last for it, if that one has not left, and there is no entry otherwise. */
  lemma {:induction false} RegistryHoldsNewest(history: seq<Event>, t: Target, c: Connection)
    ensures (t in Run(history) && Run(history)[t] == c) <==> exists i :: NewestAndLive(history, t, c, i)
    decreases |history|
  {
    if history != [] {
      var n := |history| - 1;
      var before, e := history[..n], history[n];
      assert history == before + [e];
      RegistryHoldsNewest(before, t, c);
      if t in Run(history) && Run(history)[t] == c {
        if e == Event.Register(t, c) {
          assert NewestAndLive(history, t, c, n);
        } else {
          var i :| NewestAndLive(before, t, c, i);
          assert NewestAndLive(history, t, c, i);
        }
      }
      if i :| NewestAndLive(history, t, c, i) {
        if i < n {
          assert NewestAndLive(before, t, c, i);
        }
      }
    }
  }

  /** An old connection's exit leaves a newer one of the same target registered. */
  lemma OldExitKeepsNewer(history: seq<Event>, t: Target, older: Connection, newer: Connection, later: seq<Event>)
    requires older != newer
    requires forall e :: e in later ==> e.target != t || e == Event.Unregister(t, older)
    ensures var all := history + [Event.Register(t, newer)] + later; t in Run(all) && Run(all)[t] == newer
  {
    var all := history + [Event.Register(t, newer)] + later;
    var i := |history|;
    forall j | i < j < |all| && all[j].target == t
      ensures all[j].Unregister? && all[j].connection != newer
    {
      assert all[j] == later[j - i - 1] && all[j] in later;
    }
    assert NewestAndLive(all, t, newer, i);
    RegistryHoldsNewest(all, t, newer);
  }
}
