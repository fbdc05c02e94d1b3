/** The log of recent visitors that the dashboard keeps: who a visitor is, how
    the log is capped at its ten newest entries, the order the dashboard shows
    them in, and how many distinct addresses it holds. */
module VisitorLog {
  import opened Wrappers

  /** How many visitors the log keeps. */
  const Capacity: nat := 10

  /** One dashboard visit: the client address, the wall-clock time of day
      already formatted as HH:MM:SS, and the raw timestamp in seconds. */
  datatype Visitor = Visitor(ip: string, time: string, timestamp: real)

  /** The address recorded for a visit: the request's remote address, or
      "unknown" when there is none. Python's `or` also replaces an empty
      address, so the recorded address is never empty. */
  function VisitorIp(remoteAddr: Option<string>): (ip: string)
    ensures ip != []
    ensures remoteAddr.Some? && remoteAddr.value != [] ==> ip == remoteAddr.value
    ensures remoteAddr.None? || remoteAddr.value == [] ==> ip == "unknown"
  {
    match remoteAddr
    case Some(addr) => if addr != [] then addr else "unknown"
    case None => "unknown"
  }

  /** Python's `log[-10:]`: the last Capacity entries, or all of them when
      there are fewer. */
  function Recent<T>(log: seq<T>): (r: seq<T>)
  {
    if |log| <= Capacity then log else log[|log| - Capacity..]
  }

  /** What Recent keeps: the newest min(|log|, Capacity) entries, in their order. */
  lemma RecentIsNewestSuffix<T>(log: seq<T>)
    ensures |Recent(log)| == if |log| < Capacity then |log| else Capacity
    ensures Recent(log) == log[|log| - |Recent(log)|..]
    ensures forall k :: 0 <= k < |Recent(log)| ==> Recent(log)[k] == log[|log| - |Recent(log)| + k]
  {
  }

  /** A log already within the cap is left as it is. */
  lemma RecentWithinCap<T>(log: seq<T>)
    requires |log| <= Capacity
    ensures Recent(log) == log
  {
  }

  /** Below the cap a visit is simply appended. */
  lemma PushBelowCap(log: seq<Visitor>, v: Visitor)
    requires |log| < Capacity
    ensures PushVisitor(log, v) == log + [v]
  {
  }

  /** Capping, appending and capping again keeps the same entries as appending
      first and capping once. */
  lemma RecentOfRecent<T>(log: seq<T>, more: seq<T>)
    ensures Recent(Recent(log) + more) == Recent(log + more)
  {
    if Capacity < |log| {
      var cut := |log| - Capacity;
      assert Recent(log) + more == (log + more)[cut..];
      assert Recent(log + more) == (log + more)[|log + more| - Capacity..];
    }
  }

  /** The home handler's update: append the visit, then keep the newest
      Capacity entries. */
  function PushVisitor(log: seq<Visitor>, v: Visitor): seq<Visitor>
  {
    Recent(log + [v])
  }

  /** After a visit the log has min(|log| + 1, Capacity) entries, the new
      visitor last, preceded by the newest entries of the old log. */
  lemma PushVisitorKeepsNewest(log: seq<Visitor>, v: Visitor)
    ensures var r := PushVisitor(log, v);
      && |r| == (if |log| + 1 < Capacity then |log| + 1 else Capacity)
      && r[|r| - 1] == v
      && r[..|r| - 1] == log[|log| + 1 - |r|..]
  {
    var r := PushVisitor(log, v);
    RecentIsNewestSuffix(log + [v]);
    assert r[..|r| - 1] == log[|log| + 1 - |r|..];
  }

  /** The log after a series of visits, starting from `log`. */
  function Replay(log: seq<Visitor>, arrivals: seq<Visitor>): seq<Visitor>
    decreases |arrivals|
  {
    if arrivals == [] then log else Replay(PushVisitor(log, arrivals[0]), arrivals[1..])
  }

  /** After any series of visits the log holds exactly the newest Capacity of
      all the visits seen since it was last empty or within its cap. */
  lemma {:induction false} ReplayKeepsNewest(log: seq<Visitor>, arrivals: seq<Visitor>)
    requires |log| <= Capacity
    ensures Replay(log, arrivals) == Recent(log + arrivals)
    decreases |arrivals|
  {
    if arrivals == [] {
      assert log + arrivals == log;
      RecentWithinCap(log);
    } else {
      var first, rest := arrivals[0], arrivals[1..];
      var next := PushVisitor(log, first);
      ReplayKeepsNewest(next, rest);
      assert Recent(next + rest) == Recent(log + arrivals) by {
        RecentOfRecent(log + [first], rest);
        assert log + [first] + rest == log + arrivals;
      }
    }
  }

  /** From an empty log, n visits leave min(n, Capacity) entries: the last
      ones, the newest at the end. */
  lemma ReplayFromEmpty(arrivals: seq<Visitor>)
    ensures var r := Replay([], arrivals);
      && r == Recent(arrivals)
      && |r| == (if |arrivals| < Capacity then |arrivals| else Capacity)
      && (arrivals != [] ==> r[|r| - 1] == arrivals[|arrivals| - 1])
  {
    assert [] + arrivals == arrivals;
    ReplayKeepsNewest([], arrivals);
    var r := Recent(arrivals);
    RecentIsNewestSuffix(arrivals);
    if arrivals != [] {
      assert r[|r| - 1] == arrivals[|arrivals| - |r| + (|r| - 1)];
    }
  }

  /** Python's `log[::-1]`, the order the dashboard lists visitors in. */
  function Reversed<T>(s: seq<T>): (r: seq<T>)
    ensures |r| == |s|
    ensures forall k :: 0 <= k < |s| ==> r[k] == s[|s| - 1 - k]
    decreases |s|
  {
    if s == [] then [] else [s[|s| - 1]] + Reversed(s[..|s| - 1])
  }

  /** The dashboard lists the newest visit first and the oldest retained visit last. */
  lemma NewestFirst(log: seq<Visitor>, v: Visitor)
    ensures Reversed(PushVisitor(log, v))[0] == v
    ensures |log| < Capacity ==> Reversed(PushVisitor(log, v))[|log|] == (log + [v])[0]
  {
  }

  /** The distinct addresses in the log, as `set(v['ip'] for v in visitors)`. */
  function Addresses(log: seq<Visitor>): set<string>
  {
    set v | v in log :: v.ip
  }

  /** Logging one more visit adds its address to the distinct ones. */
  lemma AddressesAppend(log: seq<Visitor>, v: Visitor)
    ensures Addresses(log + [v]) == Addresses(log) + {v.ip}
  {
    assert forall w :: w in log + [v] <==> w in log || w == v;
  }

  /** A log of n entries holds at most n distinct addresses, and at least one
      when it is not empty. */
  lemma {:induction false} AddressesBound(log: seq<Visitor>)
    ensures |Addresses(log)| <= |log|
    ensures log != [] ==> 1 <= |Addresses(log)|
    decreases |log|
  {
    if log != [] {
      var init := log[..|log| - 1];
      var last := log[|log| - 1];
      assert log == init + [last];
      AddressesAppend(init, last);
      AddressesBound(init);
    }
  }

  /** An address is counted exactly when some retained visit has it. */
  lemma AddressesExactly(log: seq<Visitor>, ip: string)
    ensures ip in Addresses(log) <==> exists k :: 0 <= k < |log| && log[k].ip == ip
  {
    if ip in Addresses(log) {
      var v :| v in log && v.ip == ip;
      var k :| 0 <= k < |log| && log[k] == v;
    }
  }

  /** Three visits from one address and one from another leave four entries
      and two distinct addresses. */
  lemma TwoAddressesExample(a: Visitor, b: Visitor)
    requires a.ip != b.ip
    ensures |Replay([], [a, a, a, b])| == 4
    ensures |Addresses(Replay([], [a, a, a, b]))| == 2
  {
    ReplayFromEmpty([a, a, a, b]);
    assert Replay([], [a, a, a, b]) == [a, a, a, b];
    AddressesAppend([a], a);
    AddressesAppend([a, a], a);
    AddressesAppend([a, a, a], b);
    assert Addresses([a]) == {a.ip};
    assert Addresses([a, a, a, b]) == {a.ip, b.ip};
  }
}
