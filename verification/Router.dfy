/** The route table of the tunnel device: a cached list of routes and the commands it issues. */
module Router {
  import opened Bytes

  type Prefix = nat

  datatype Command = AddRoute(ip: Prefix) | DelRoute(ip: Prefix)

  /** The kernel's table after some commands; None once one adds a present or deletes an absent route. */
  ghost function Replay(commands: seq<Command>): Option<set<Prefix>> {
    if commands == [] then Some({})
    else
      var n := |commands| - 1;
      match Replay(commands[..n])
      case None => None
      case Some(t) =>
        match commands[n]
        case AddRoute(ip) => if ip in t then None else Some(t + {ip})
        case DelRoute(ip) => if ip in t then Some(t - {ip}) else None
  }

  lemma ReplaySnoc(commands: seq<Command>, c: Command)
    ensures Replay(commands + [c]) ==
            match Replay(commands)
            case None => None
            case Some(t) => if c.AddRoute? then (if c.ip in t then None else Some(t + {c.ip}))
                            else if c.ip in t then Some(t - {c.ip}) else None
  {
    assert (commands + [c])[..|commands|] == commands;
  }

  method NewSet(ips: seq<Prefix>) returns (s: set<Prefix>)
    ensures s == set ip | ip in ips
  {
    s := {};
    for i := 0 to |ips|
      invariant s == set ip | ip in ips[..i]
    {
      s := s + {ips[i]};
      assert ips[..i + 1] == ips[..i] + [ips[i]];
    }
    assert ips[..|ips|] == ips;
  }

  method Difference(a: set<Prefix>, b: set<Prefix>) returns (d: set<Prefix>)
    ensures d == a - b
  {
    d := {};
    var todo := a;
    while todo != {}
      invariant todo <= a && d == a - todo - b
      decreases todo
    {
      var ip :| ip in todo;
      if ip !in b {
        d := d + {ip};
      }
      todo := todo - {ip};
    }
  }

  class Router {
    var routes: Option<seq<Prefix>>
    var commands: seq<Command>

    ghost function Installed(): set<Prefix>
      reads this
    {
      if routes.None? then {} else set ip | ip in routes.value
    }

    /** The commands so far were all effective and left exactly the cached routes installed. */
    ghost predicate Valid()
      reads this
    {
      Replay(commands).Some? && Replay(commands).value == Installed()
    }

    constructor ()
      ensures Valid() && Installed() == {}
    {
      routes, commands := None, [];
    }

    method Cached() returns (s: set<Prefix>)
      ensures s == Installed()
    {
      s := {};
      if routes.Some? {
        s := NewSet(routes.value);
      }
    }

    /** Issues one command per element; `del` and `add` hold the differences. */
    method Issue(del: set<Prefix>, add: set<Prefix>) returns (added: seq<Prefix>)
      requires Valid() && del <= Installed() && add !! Installed()
      modifies `commands
      ensures Replay(commands).Some? && Replay(commands).value == Installed() - del + add
      ensures (set ip | ip in added) == add
    {
      var todo := del;
      ghost var table := Installed();
      while todo != {}
        invariant todo <= del && table == Installed() - (del - todo)
        invariant Replay(commands).Some? && Replay(commands).value == table
        decreases todo
      {
        var ip :| ip in todo;
        ReplaySnoc(commands, DelRoute(ip));
        commands := commands + [DelRoute(ip)];
        todo, table := todo - {ip}, table - {ip};
      }
      todo := add;
      added := [];
      while todo != {}
        invariant todo <= add && table == Installed() - del + (add - todo)
        invariant Replay(commands).Some? && Replay(commands).value == table
        invariant (set ip | ip in added) == add - todo
        decreases todo
      {
        var ip :| ip in todo;
        ReplaySnoc(commands, AddRoute(ip));
        commands := commands + [AddRoute(ip)];
        added := added + [ip];
        todo, table := todo - {ip}, table + {ip};
      }
    }

    method Set(latest: seq<Prefix>)
      requires Valid()
      modifies this
      ensures Valid() && Installed() == set ip | ip in latest
    {
      var previous := Cached();
      var cur := NewSet(latest);
      var del := Difference(previous, cur);
      var add := Difference(cur, previous);
      var _ := Issue(del, add);
      assert previous - del + add == cur;
      routes := Some(latest);
    }

    method Add(latest: seq<Prefix>)
      requires Valid()
      modifies this
      ensures Valid() && Installed() == old(Installed()) + set ip | ip in latest
    {
      var previous := Cached();
      var cur := NewSet(latest);
      var add := Difference(cur, previous);
      var addArray := Issue({}, add);
      assert previous - {} + add == previous + cur;
      if routes.Some? {
        routes := Some(routes.value + addArray);
      } else {
        routes := Some(latest);
      }
      assert Installed() == previous + cur;
    }
  }
}
