/**
 * The many-client server loop (tests/bandwidth-server-many-up.c): a descriptor
 * set that grows and shrinks while a copy of it is being served.
 */
module SelectServer {
  /** What happened to a descriptor that was ready. */
  datatype Event = Accepted(fd: int, newfd: int) | AcceptFailed(fd: int) | Answered(fd: int) | Closed(fd: int)

  /** The descriptors of the events, in order. */
  function Descriptors(events: seq<Event>): (fds: seq<int>)
    ensures |fds| == |events|
  {
    seq(|events|, k requires 0 <= k < |events| => events[k].fd)
  }

  /**
   * What the system calls give in a round: the descriptor `accept` returns, -1 if
   * it fails, and the connections on which nothing can be received any more.
   */
  datatype Outside = Outside(newfd: int, broken: set<int>)

  /** What becomes of a ready descriptor. */
  function Fate(serverSocket: int, fd: int, w: Outside): Event {
    if fd == serverSocket then (if w.newfd == -1 then AcceptFailed(fd) else Accepted(fd, w.newfd))
    else if fd in w.broken then Closed(fd)
    else Answered(fd)
  }

  /** The connections given up among those ready below `limit`. */
  function GivenUp(serverSocket: int, ready: set<int>, w: Outside, limit: int): set<int> {
    set fd | fd in ready && fd in w.broken && fd != serverSocket && fd < limit
  }

  predicate Ascending(s: seq<int>) {
    forall i, j :: 0 <= i < j < |s| ==> s[i] < s[j]
  }

  lemma OneMore(events: seq<Event>, e: Event)
    ensures Descriptors(events + [e]) == Descriptors(events) + [e.fd]
  {
  }

  /**
   * The round below `limit`: an event for each ready descriptor, in ascending
   * order, and the set without what was given up and with what was accepted.
   */
  ghost predicate RoundSoFar(serverSocket: int, ready: set<int>, w: Outside, limit: int, before: set<int>,
                             refset: set<int>, events: seq<Event>) {
    && Ascending(Descriptors(events))
    && (forall fd :: fd in Descriptors(events) <==> fd in ready && fd < limit)
    && (forall k :: 0 <= k < |events| ==> events[k] == Fate(serverSocket, events[k].fd, w))
    && refset == before - GivenUp(serverSocket, ready, w, limit) +
                 if serverSocket in ready && serverSocket < limit && w.newfd != -1 then {w.newfd} else {}
  }

  lemma RoundGoesOn(serverSocket: int, ready: set<int>, w: Outside, limit: int, before: set<int>, refset: set<int>,
                    events: seq<Event>, e: Event, after: set<int>)
    requires RoundSoFar(serverSocket, ready, w, limit, before, refset, events) && ready <= before
    requires limit in ready && e == Fate(serverSocket, limit, w)
    requires serverSocket < limit && w.newfd in ready ==> w.newfd < limit
    requires after == if e.Accepted? then refset + {e.newfd} else if e.Closed? then refset - {e.fd} else refset
    ensures RoundSoFar(serverSocket, ready, w, limit + 1, before, after, events + [e])
  {
    hide Descriptors;
    OneMore(events, e);
    var fds := Descriptors(events);
    forall k | 0 <= k < |fds| ensures fds[k] < limit {
      assert fds[k] in fds;
    }
    assert forall fd :: fd in fds + [limit] <==> fd in fds || fd == limit;
  }

  class Server {
    const serverSocket: int
    var refset: set<int>
    var fdmax: int

    constructor (serverSocket: int)
      requires serverSocket >= 0
      ensures Valid() && this.serverSocket == serverSocket && refset == {serverSocket}
    {
      this.serverSocket := serverSocket;
      refset := {serverSocket};
      fdmax := serverSocket;
    }

    /** `select(fdmax + 1, ...)` looks at every registered descriptor, and the listening one is registered. */
    predicate Valid()
      reads this
    {
      serverSocket in refset && forall fd :: fd in refset ==> 0 <= fd <= fdmax
    }

    /**
     * One ready descriptor: a connection accepted, or a query answered, or the
     * descriptor closed. The set is unbounded here; the source's holds
     * descriptors below FD_SETSIZE, which it does not check.
     */
    method ServeOne(masterSocket: int, w: Outside) returns (e: Event)
      requires Valid() && masterSocket in refset
      requires masterSocket == serverSocket ==> w.newfd >= -1 && w.newfd !in refset
      modifies this
      ensures Valid() && e == Fate(serverSocket, masterSocket, w)
      ensures e.Accepted? ==> refset == old(refset) + {w.newfd}
      ensures e.Closed? ==> refset == old(refset) - {masterSocket}
      ensures !e.Accepted? && !e.Closed? ==> refset == old(refset)
      ensures fdmax == if e.Accepted? && w.newfd > old(fdmax) then w.newfd
                       else if e.Closed? && masterSocket == old(fdmax) then old(fdmax) - 1 else old(fdmax)
    {
      if masterSocket == serverSocket {
        if w.newfd == -1 {
          return AcceptFailed(masterSocket);
        }
        refset := refset + {w.newfd};
        if w.newfd > fdmax {
          fdmax := w.newfd;
        }
        return Accepted(masterSocket, w.newfd);
      }
      if masterSocket !in w.broken {
        return Answered(masterSocket);
      }
      refset := refset - {masterSocket};
      if masterSocket == fdmax {
        fdmax := fdmax - 1;
      }
      e := Closed(masterSocket);
    }

    /**
     * One round, for the descriptors `select` reports ready: each of them is
     * served exactly once, in ascending order, and no other. At its end the
     * connections given up are registered no more, the one accepted is, and
     * nothing else has changed. `accept` returns a descriptor that is not open.
     */
    method Round(ready: set<int>, w: Outside) returns (events: seq<Event>)
      requires Valid() && ready <= refset
      requires w.newfd >= -1 && w.newfd !in refset - GivenUp(serverSocket, ready, w, serverSocket)
      modifies this
      ensures Valid()
      ensures Ascending(Descriptors(events)) && (forall fd :: fd in Descriptors(events) <==> fd in ready)
      ensures forall k :: 0 <= k < |events| ==>
        && (events[k].fd == serverSocket <==> events[k].AcceptFailed? || events[k] == Accepted(serverSocket, w.newfd))
        && (events[k].AcceptFailed? ==> w.newfd == -1) && (events[k].Accepted? ==> w.newfd >= 0)
        && (events[k].Closed? <==> events[k].fd != serverSocket && events[k].fd in w.broken)
      ensures forall fd :: fd in refset <==>
        || (serverSocket in ready && fd == w.newfd != -1)
        || (fd in old(refset) && !(fd in ready && fd in w.broken && fd != serverSocket))
    {
      events := [];
      var masterSocket := 0;
      while masterSocket <= fdmax
        invariant Valid() && 0 <= masterSocket
        invariant RoundSoFar(serverSocket, ready, w, masterSocket, old(refset), refset, events)
        invariant forall fd :: fd in ready && fd >= masterSocket ==> fd in refset
        decreases if masterSocket <= serverSocket then 1 else 0, fdmax + 1 - masterSocket
      {
        if masterSocket in ready {
          ghost var before := refset;
          var e := ServeOne(masterSocket, w);
          RoundGoesOn(serverSocket, ready, w, masterSocket, old(refset), before, events, e, refset);
          events := events + [e];
        }
        masterSocket := masterSocket + 1;
      }
    }
  }
}
