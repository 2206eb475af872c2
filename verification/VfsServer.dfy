/**
  The file-system daemon's connection table.  Each entry is a socket and what has become of it;
  one round polls all of them, handles what is ready, and compacts the table while it may still
  grow at its end.  What the operating system and the peers do is an argument, one answer a round.
  */
module VfsServer {
  import opened Bytes

  const VFS_MAX_FDS: nat := 1024

  datatype SocketState = Listening | Accepted | Mounted | FdSent | Closed

  /** Requested and returned poll events. */
  datatype Events = Events(pollin: bool, pollout: bool)

  const NOTHING := Events(false, false)

  /** An entry of the table: descriptor state and poll record. */
  datatype Entry = Entry(state: SocketState, pid: int, fuseFd: int, fd: int, events: Events, revents: Events)

  const GONE := Entry(Closed, -1, -1, -1, NOTHING, NOTHING)

  /** How many times an entry is responsible for closing descriptor fd. */
  function OwnedFds(e: Entry, fd: int): nat {
    match e.state
    case Accepted => One(e.fd == fd)
    case Mounted => One(e.fd == fd) + One(e.fuseFd == fd)
    case FdSent => One(e.fd == fd) + One(e.fuseFd == fd)
    case _ => 0
  }

  /** How many mounts of process pid an entry is responsible for undoing. */
  function OwnedMounts(e: Entry, pid: int): nat {
    if e.state.Mounted? || e.state.FdSent? then One(e.pid == pid) else 0
  }

  function Fds(t: seq<Entry>, fd: int): nat {
    if t == [] then 0 else OwnedFds(t[0], fd) + Fds(t[1..], fd)
  }

  function Mounts(t: seq<Entry>, pid: int): nat {
    if t == [] then 0 else OwnedMounts(t[0], pid) + Mounts(t[1..], pid)
  }

  lemma {:induction false} OwnedConcat(s: seq<Entry>, t: seq<Entry>, fd: int, pid: int)
    ensures Fds(s + t, fd) == Fds(s, fd) + Fds(t, fd) && Mounts(s + t, pid) == Mounts(s, pid) + Mounts(t, pid)
    decreases |s|
  {
    if s == [] {
      assert s + t == t;
    } else {
      assert (s + t)[1..] == s[1..] + t;
      OwnedConcat(s[1..], t, fd, pid);
    }
  }

  lemma OwnedOne(e: Entry, fd: int, pid: int)
    ensures Fds([e], fd) == OwnedFds(e, fd) && Mounts([e], pid) == OwnedMounts(e, pid)
  {
    assert Fds([], fd) == 0 && Mounts([], pid) == 0;
  }

  /** Ready for another poll: open, waiting for input, and for output exactly when mounted. */
  predicate Steady(e: Entry) {
    && !e.state.Closed? && e.events.pollin && (e.events.pollout <==> e.state.Mounted?)
  }

  /** Poll reports only what was asked for. */
  predicate Polled(e: Entry) {
    (e.revents.pollin ==> e.events.pollin) && (e.revents.pollout ==> e.events.pollout)
  }

  /** What handling may make of an entry: it stays steady or is closed, and the listener stays. */
  predicate Handled(before: Entry, after: Entry) {
    && (Steady(after) || after == GONE)
    && (before.state.Listening? ==> after == before)
    && (after.state.Listening? ==> before.state.Listening?)
  }

  /** The entries a loop head may see: one listener, in front; all steady. */
  ghost predicate Orderly(t: seq<Entry>, listener: bool) {
    && (forall i :: 0 <= i < |t| ==> Steady(t[i]))
    && (forall i :: 0 <= i < |t| ==> (t[i].state.Listening? <==> listener && i == 0))
    && (listener ==> t != [])
  }

  /** An accepted connection: whether credentials can be requested on it and its flags be set. */
  datatype Connection = Connection(fd: int, passcredOk: bool, fcntlOk: bool)

  /** Accepted, but neither closed nor entered into the table. */
  predicate IsLost(c: Connection, fd: int) { c.fd == fd && c.passcredOk && !c.fcntlOk }

  function Lost(log: seq<Connection>, fd: int): nat {
    if log == [] then 0 else Lost(log[..|log| - 1], fd) + One(IsLost(log[|log| - 1], fd))
  }

  lemma {:induction false} LostNone(log: seq<Connection>, fd: int)
    ensures Lost(log, fd) == 0 <==> forall i :: 0 <= i < |log| ==> !IsLost(log[i], fd)
  {
    if log != [] {
      LostNone(log[..|log| - 1], fd);
    }
  }

  /** What a peer asks for. */
  datatype Action = Stop | Mount(pid: int) | Other

  /** A peer in one round: its request, if one can be received, the mount's answer, and whether a reply can be sent. */
  datatype Peer = Peer(received: bool, action: Action, fuseFd: int, sent: bool)

  /**
    What the system does in one round of the loop: a signal before it, poll fails or is interrupted,
    which entries are ready, the connection that would be accepted, and the peer of each entry.
    */
  datatype Round = Round(signalled: bool, failed: bool, interrupted: bool, ready: nat -> Events, conn: Connection,
                         peer: nat -> Peer)

  // ----- what a run does to the table -----

  predicate AsksStop(e: Entry, p: Peer) { e.state.Accepted? && e.revents.pollin && p.received && p.action.Stop? }

  /** The peer gets a mount: it asks for a valid process, and mounting succeeds. */
  predicate GetsMount(e: Entry, p: Peer) {
    e.state.Accepted? && e.revents.pollin && p.received && p.action.Mount? && p.action.pid >= 0 && p.fuseFd >= 0
  }

  function MountedEntry(e: Entry, pid: int, fuseFd: int): Entry {
    e.(state := Mounted, pid := pid, fuseFd := fuseFd, events := e.events.(pollout := true))
  }

  function SentEntry(e: Entry): Entry { e.(state := FdSent, events := e.events.(pollout := false)) }

  /** An entry after its turn: nothing happens without an event; input is a connection, a request, or the end. */
  function Turn(e: Entry, p: Peer): Entry {
    if e.revents.pollin then
      if e.state.Listening? || AsksStop(e, p) then e
      else if GetsMount(e, p) then MountedEntry(e, p.action.pid, p.fuseFd)
      else GONE
    else if e.revents.pollout then if e.state.Mounted? && p.sent then SentEntry(e) else GONE
    else e
  }

  /** A connection becomes an entry if credentials can be requested and its flags be set. */
  function Newcomer(c: Connection): seq<Entry> {
    if c.passcredOk && c.fcntlOk then [Entry(Accepted, -1, -1, c.fd, Events(true, false), NOTHING)] else []
  }

  /** A pass takes the connection if the listener, in front, is ready and there is room. */
  predicate Takes(t: seq<Entry>, c: Connection) {
    t != [] && t[0].state.Listening? && t[0].revents.pollin && c.fd >= 0 && |t| < VFS_MAX_FDS
  }

  /** The entries in turn: those that are left, the mounts of process pid, and whether a peer asked to stop. */
  datatype Swept = Swept(kept: seq<Entry>, mounts: nat, stop: bool)

  ghost function Sweep(t: seq<Entry>, peer: nat -> Peer, pid: int): Swept {
    if t == [] then Swept([], 0, false)
    else
      var k := |t| - 1;
      var front, e, p := Sweep(t[..k], peer, pid), t[k], peer(k);
      Swept(front.kept + (if Turn(e, p).state.Closed? then [] else [Turn(e, p)]),
            front.mounts + One(GetsMount(e, p) && p.action.pid == pid), front.stop || AsksStop(e, p))
  }

  function Arriving(t: seq<Entry>, c: Connection): seq<Entry> { if Takes(t, c) then Newcomer(c) else [] }

  /** Poll reports to every entry those of the events it asked for that are ready. */
  function Reported(t: seq<Entry>, ready: nat -> Events): seq<Entry> {
    seq(|t|, i requires 0 <= i < |t| =>
      t[i].(revents := Events(t[i].events.pollin && ready(i).pollin, t[i].events.pollout && ready(i).pollout)))
  }

  /** The server between two rounds: its table, the connections accepted and the mounts of process pid so far. */
  datatype Head = Head(table: seq<Entry>, accepts: seq<Connection>, mounts: nat, stop: bool)

  ghost function Next(h: Head, r: Round, pid: int): Head {
    if r.failed then h.(stop := h.stop || r.signalled)
    else
      var t := Reported(h.table, r.ready);
      var swept := Sweep(t, r.peer, pid);
      Head(swept.kept + Arriving(t, r.conn), h.accepts + (if Takes(t, r.conn) then [r.conn] else []),
           h.mounts + swept.mounts, h.stop || r.signalled || swept.stop)
  }

  /** How the loop ended. */
  datatype Exit = Zero | PollError | StillRunning

  datatype Ended = Ended(exit: Exit, head: Head)

  /** A run from a loop head: until stopped, or poll fails, or there are no more rounds. */
  ghost function Run(h: Head, rounds: seq<Round>, pid: int): Ended
    decreases |rounds|
  {
    if h.stop then Ended(Zero, h)
    else if rounds == [] then Ended(StillRunning, h)
    else if rounds[0].failed && !rounds[0].interrupted then Ended(PollError, Next(h, rounds[0], pid))
    else Run(Next(h, rounds[0], pid), rounds[1..], pid)
  }

  function Start(listenFd: int, fcntlOk: bool, mounts: nat): Head {
    Head(if fcntlOk then [Entry(Listening, -1, -1, listenFd, Events(true, false), NOTHING)] else [], [], mounts, false)
  }

  lemma SweepNone(t: seq<Entry>, peer: nat -> Peer, pid: int)
    ensures Sweep(t[..0], peer, pid) == Swept([], 0, false)
  {}

  lemma SweepNext(t: seq<Entry>, k: nat, peer: nat -> Peer, pid: int)
    requires k < |t|
    ensures var front, e, p := Sweep(t[..k], peer, pid), t[k], peer(k);
            Sweep(t[..k + 1], peer, pid) ==
            Swept(front.kept + (if Turn(e, p).state.Closed? then [] else [Turn(e, p)]),
                  front.mounts + One(GetsMount(e, p) && p.action.pid == pid), front.stop || AsksStop(e, p))
  {
    assert t[..k + 1][..k] == t[..k];
  }

  /** Every peer that gets a mount for pid is counted once, and any peer that asks stops the server. */
  lemma {:induction false} SweptExactly(t: seq<Entry>, peer: nat -> Peer, pid: int)
    ensures Sweep(t, peer, pid).mounts == |Mounting(t, peer, pid)|
    ensures Sweep(t, peer, pid).stop <==> exists i :: 0 <= i < |t| && AsksStop(t[i], peer(i))
  {
    hide Turn, AsksStop, Mounting;
    if t == [] {
      NoneMounting(peer, pid);
    } else {
      var k := |t| - 1;
      var front := t[..k];
      SweptExactly(front, peer, pid);
      MountingNext(t, peer, pid);
      assert forall i :: 0 <= i < k ==> front[i] == t[i];
    }
  }

  lemma NoneMounting(peer: nat -> Peer, pid: int)
    ensures Mounting([], peer, pid) == {}
  {}

  lemma MountingNext(t: seq<Entry>, peer: nat -> Peer, pid: int)
    requires t != []
    ensures var k := |t| - 1;
            |Mounting(t, peer, pid)| ==
            |Mounting(t[..k], peer, pid)| + One(GetsMount(t[k], peer(k)) && peer(k).action.pid == pid)
  {
    var k := |t| - 1;
    assert Mounting(t, peer, pid) == Mounting(t[..k], peer, pid) +
                                     if GetsMount(t[k], peer(k)) && peer(k).action.pid == pid then {k} else {};
  }

  /** The entries whose peers get a mount for pid. */
  ghost function Mounting(t: seq<Entry>, peer: nat -> Peer, pid: int): set<int> {
    set i | 0 <= i < |t| && GetsMount(t[i], peer(i)) && peer(i).action.pid == pid
  }

  /** A connection that has just arrived is visited too, and left alone. */
  lemma SweepArriving(t: seq<Entry>, c: Connection, peer: nat -> Peer, pid: int)
    ensures var swept := Sweep(t, peer, pid);
            Sweep(t + Arriving(t, c), peer, pid) == swept.(kept := swept.kept + Arriving(t, c))
  {
    var t' := t + Arriving(t, c);
    assert t'[..|t|] == t && t == t + [];
    if t' != t {
      SweepNext(t', |t|, peer, pid);
      assert t'[..|t| + 1] == t';
    } else {
      assert Arriving(t, c) == [];
    }
  }

  class Server {
    const table: array<Entry>
    var nfds: nat
    var stop: bool

    // One descriptor number and one process, arbitrary but fixed, and what happened to them:
    // obtained by accepting or mounting, and closed; mounted and unmounted.  Besides, every
    // connection ever accepted, with what the system answered about it.
    ghost const someFd: int
    ghost const somePid: int
    ghost var obtained: nat
    ghost var closed: nat
    ghost var accepts: seq<Connection>
    ghost var mounts: nat
    ghost var unmounts: nat

    constructor (ghost fd: int, ghost pid: int)
      ensures Valid() && fresh(table) && nfds == 0 && !stop && someFd == fd && somePid == pid
      ensures obtained == closed == mounts == unmounts == 0 && accepts == []
    {
      table := new Entry[VFS_MAX_FDS](_ => GONE);
      nfds, stop, someFd, somePid := 0, false, fd, pid;
      obtained, closed, accepts, mounts, unmounts := 0, 0, [], 0, 0;
    }

    ghost predicate Valid()
      reads this
    {
      table.Length == VFS_MAX_FDS && nfds <= VFS_MAX_FDS
    }

    /** The accepted descriptors that no one will ever close. */
    ghost function LostFds(): nat
      reads this
    {
      Lost(accepts, someFd)
    }

    /** Every descriptor obtained is closed, lost, or owned by one of these entries; mounts likewise. */
    ghost predicate Accounted(t: seq<Entry>)
      reads this
    {
      obtained == closed + LostFds() + Fds(t, someFd) && mounts == unmounts + Mounts(t, somePid)
    }

    /**
      The books since the old state, when an entry e0 became e1 and descriptors owned by new
      entries were obtained: nothing goes unaccounted for and nothing is closed twice.
      */
    twostate predicate Settled(e0: Entry, e1: Entry, extra: nat)
      reads this
    {
      && old(accepts) <= accepts
      && obtained + old(closed) + old(LostFds()) + OwnedFds(e0, someFd)
         == old(obtained) + closed + LostFds() + OwnedFds(e1, someFd) + extra
      && mounts + old(unmounts) + OwnedMounts(e0, somePid) == old(mounts) + unmounts + OwnedMounts(e1, somePid)
    }

    /** The table is as given, but for at most one new connection at its end. */
    ghost predicate Extended(n: nat, t: seq<Entry>)
      reads this, table
    {
      && Valid() && n <= nfds <= n + 1 && table[..n] == t
      && (nfds > n ==> Steady(table[n]) && Polled(table[n]) && table[n].state.Accepted?)
    }

    ghost function NewFds(n: nat): nat
      requires Valid() && n <= nfds
      reads this, table
    {
      if n < nfds then OwnedFds(table[n], someFd) else 0
    }

    method CloseFd(fd: int)
      modifies this`closed
      ensures closed == old(closed) + One(fd == someFd)
    {
      closed := closed + One(fd == someFd);
    }

    /** Appends an entry unless the descriptor's flags cannot be changed. */
    method AddFd(fd: int, state: SocketState, fcntlOk: bool) returns (ok: bool)
      requires Valid() && nfds < VFS_MAX_FDS
      modifies this`nfds, table
      ensures Valid() && ok == fcntlOk && nfds == old(nfds) + One(ok)
      ensures table[..old(nfds)] == old(table[..nfds])
      ensures ok ==> table[old(nfds)] == Entry(state, -1, -1, fd, Events(true, false), NOTHING)
    {
      if !fcntlOk {
        return false;
      }
      var idx := nfds;
      nfds := nfds + 1;
      table[idx] := Entry(state, -1, -1, fd, Events(true, false), NOTHING);
      ok := true;
    }

    /** Closes what an entry owns and marks it closed. */
    method RemoveFd(idx: nat)
      requires Valid() && idx < table.Length
      modifies this`closed, this`unmounts, table
      ensures table[..] == old(table[..])[idx := GONE]
      ensures Settled(old(table[idx]), GONE, 0)
    {
      var e := table[idx];
      if e.state.FdSent? || e.state.Mounted? {
        CloseFd(e.fuseFd);
        unmounts := unmounts + One(e.pid == somePid);
        CloseFd(e.fd);
      } else if e.state.Accepted? {
        CloseFd(e.fd);
      }
      table[idx] := GONE;
    }

    /** Accepts a connection.  There is room for it in the table; nothing in the server checks that. */
    method Accept(c: Connection)
      requires Valid()
      modifies this`nfds, this`obtained, this`closed, this`accepts, table
      ensures Extended(old(nfds), old(table[..nfds])) && Settled(GONE, GONE, NewFds(old(nfds)))
      ensures var taken := c.fd >= 0 && old(nfds) < VFS_MAX_FDS;
              && accepts == old(accepts) + (if taken then [c] else [])
              && table[..nfds] == old(table[..nfds]) + (if taken then Newcomer(c) else [])
    {
      if c.fd < 0 || nfds == VFS_MAX_FDS {
        return;
      }
      Admit(c);
    }

    /**
      What becomes of an accepted connection: closed if credentials cannot be requested, entered if
      its flags can be set, and otherwise, since the caller ignores that failure, left open for ever.
      */
    method Admit(c: Connection)
      requires Valid() && nfds < VFS_MAX_FDS
      modifies this`nfds, this`obtained, this`closed, this`accepts, table
      ensures Extended(old(nfds), old(table[..nfds])) && Settled(GONE, GONE, NewFds(old(nfds)))
      ensures accepts == old(accepts) + [c] && obtained == old(obtained) + One(c.fd == someFd)
      ensures closed == old(closed) + One(c.fd == someFd && !c.passcredOk)
      ensures table[..nfds] == old(table[..nfds]) + Newcomer(c)
    {
      accepts := accepts + [c];
      assert accepts[..|accepts| - 1] == old(accepts);
      obtained := obtained + One(c.fd == someFd);
      if !c.passcredOk {
        CloseFd(c.fd);
        return;
      }
      var _ := AddFd(c.fd, Accepted, c.fcntlOk);
    }

    /** Mounts for a peer, or drops the connection if the process is invalid or mounting fails. */
    method MountFor(idx: nat, pid: int, fuseFd: int)
      requires Valid() && idx < nfds && table[idx].state.Accepted? && Steady(table[idx]) && Polled(table[idx])
      modifies this`obtained, this`closed, this`mounts, this`unmounts, table
      ensures table[..] == old(table[..])[idx := table[idx]] && Polled(table[idx])
      ensures Handled(old(table[idx]), table[idx]) && Settled(old(table[idx]), table[idx], 0)
      ensures pid >= 0 && fuseFd >= 0 ==>
                && table[idx].state.Mounted? && table[idx].pid == pid && table[idx].fuseFd == fuseFd
                && table[idx] == MountedEntry(old(table[idx]), pid, fuseFd)
                && mounts == old(mounts) + One(pid == somePid) && unmounts == old(unmounts)
                && obtained == old(obtained) + One(fuseFd == someFd) && closed == old(closed)
      ensures pid < 0 || fuseFd < 0 ==> table[idx] == GONE && mounts == old(mounts) && obtained == old(obtained)
    {
      if pid < 0 {
        RemoveFd(idx);
        return;
      }
      if fuseFd < 0 {
        RemoveFd(idx);
        return;
      }
      obtained := obtained + One(fuseFd == someFd);
      mounts := mounts + One(pid == somePid);
      table[idx] := table[idx].(state := Mounted, pid := pid, fuseFd := fuseFd,
                                events := table[idx].events.(pollout := true));
    }

    /** Receives a request from a peer: to stop, to mount, or nothing that keeps the connection. */
    method Recv(idx: nat, p: Peer)
      requires Valid() && idx < nfds && table[idx].state.Accepted? && Steady(table[idx]) && Polled(table[idx])
      modifies this`stop, this`obtained, this`closed, this`mounts, this`unmounts, table
      ensures table[..] == old(table[..])[idx := table[idx]] && Polled(table[idx])
      ensures Handled(old(table[idx]), table[idx]) && Settled(old(table[idx]), table[idx], 0)
      ensures stop == (old(stop) || (p.received && p.action.Stop?))
      ensures var mounted := p.received && p.action.Mount? && p.action.pid >= 0 && p.fuseFd >= 0;
              && mounts == old(mounts) + One(mounted && p.action.pid == somePid)
              && table[idx] == if p.received && p.action.Stop? then old(table[idx])
                               else if mounted then MountedEntry(old(table[idx]), p.action.pid, p.fuseFd) else GONE
    {
      if !p.received {
        RemoveFd(idx);
        return;
      }
      match p.action
      case Stop => stop := true;
      case Mount(pid) => MountFor(idx, pid, p.fuseFd);
      case Other => RemoveFd(idx);
    }

    /** Input is ready. */
    method HandlePollin(idx: nat, c: Connection, p: Peer)
      requires Valid() && idx < nfds && Steady(table[idx]) && Polled(table[idx]) && table[idx].revents.pollin
      modifies this, table
      ensures Extended(old(nfds), old(table[..nfds])[idx := table[idx]]) && Polled(table[idx])
      ensures Handled(old(table[idx]), table[idx]) && Settled(old(table[idx]), table[idx], NewFds(old(nfds)))
      ensures var e, taken := old(table[idx]), old(table[idx]).state.Listening? && c.fd >= 0 && old(nfds) < VFS_MAX_FDS;
              && table[idx] == Turn(e, p) && stop == (old(stop) || AsksStop(e, p))
              && mounts == old(mounts) + One(GetsMount(e, p) && p.action.pid == somePid)
              && accepts == old(accepts) + (if taken then [c] else [])
              && table[old(nfds)..nfds] == if taken then Newcomer(c) else []
    {
      match table[idx].state
      case Listening =>
        Accept(c);
        assert table[..old(nfds)][idx] == old(table[..nfds])[idx];
        assert table[old(nfds)..nfds] == table[..nfds][old(nfds)..];
      case Accepted => Recv(idx, p);
      case FdSent => RemoveFd(idx);
      case Mounted => RemoveFd(idx);
      case Closed => assert false;  // nothing waits on a closed entry
    }

    /** Output is possible: send the reply with the descriptor of the mount. */
    method HandlePollout(idx: nat, sent: bool)
      requires Valid() && idx < nfds && Steady(table[idx]) && Polled(table[idx]) && table[idx].revents.pollout
      modifies this`closed, this`unmounts, table
      ensures table[..] == old(table[..])[idx := table[idx]]
      ensures Handled(old(table[idx]), table[idx]) && Settled(old(table[idx]), table[idx], 0)
      ensures old(table[idx]).state.Mounted?
      ensures if sent then table[idx].state.FdSent? && table[idx] == SentEntry(old(table[idx])) &&
                           closed == old(closed) && unmounts == old(unmounts)
              else table[idx] == GONE
    {
      if !table[idx].state.Mounted? {
        assert false;  // only mounted entries ask for output
      }
      if !sent {
        RemoveFd(idx);
        return;
      }
      table[idx] := table[idx].(state := FdSent, events := table[idx].events.(pollout := false));
    }

    /** Handles whatever poll reported for an entry. */
    method HandleEntry(idx: nat, c: Connection, p: Peer)
      requires Valid() && idx < nfds && Steady(table[idx]) && Polled(table[idx])
      modifies this, table
      ensures Extended(old(nfds), old(table[..nfds])[idx := table[idx]])
      ensures Handled(old(table[idx]), table[idx]) && Settled(old(table[idx]), table[idx], NewFds(old(nfds)))
      ensures var e := old(table[idx]);
              var taken := e.revents.pollin && e.state.Listening? && c.fd >= 0 && old(nfds) < VFS_MAX_FDS;
              && table[idx] == Turn(e, p) && stop == (old(stop) || AsksStop(e, p))
              && mounts == old(mounts) + One(GetsMount(e, p) && p.action.pid == somePid)
              && accepts == old(accepts) + (if taken then [c] else [])
              && table[old(nfds)..nfds] == if taken then Newcomer(c) else []
    {
      if table[idx].revents.pollin {
        HandlePollin(idx, c, p);
      }
      if table[idx].revents.pollout {
        HandlePollout(idx, p.sent);
      }
    }

    /** The loop state between two entries: what is compacted, then what is still to be visited. */
    ghost function Remaining(valid: nat, idx: nat): seq<Entry>
      requires Valid() && valid <= idx <= nfds
      reads this, table
    {
      table[..valid] + table[idx..nfds]
    }

    lemma RemainingEnds(valid: nat)
      requires Valid() && valid <= nfds
      ensures Remaining(0, 0) == table[..nfds] && Remaining(valid, nfds) == table[..valid]
    {}

    /** One pass over the table after a poll: every entry has its turn, closed ones are squeezed out. */
    method Pass(r: Round, ghost listener: bool)
      requires Valid() && Orderly(table[..nfds], listener) && Accounted(table[..nfds])
      requires forall i :: 0 <= i < nfds ==> Polled(table[i])
      modifies this, table
      ensures Valid() && Orderly(table[..nfds], listener) && Accounted(table[..nfds])
      ensures var t := old(table[..nfds]);
              var swept := Sweep(t, r.peer, somePid);
              && table[..nfds] == swept.kept + Arriving(t, r.conn)
              && mounts == old(mounts) + swept.mounts && stop == (old(stop) || swept.stop)
              && accepts == old(accepts) + if Takes(t, r.conn) then [r.conn] else []
    {
      hide Fds, Mounts, OwnedFds, OwnedMounts, Orderly, Steady, Polled, Lost, Remaining, Sweep, Turn, Takes, Newcomer,
        GetsMount, AsksStop;
      var valid: nat, idx: nat := 0, 0;
      ghost var t0, t := table[..nfds], table[..nfds];
      RemainingEnds(0);
      SweepNone(t, r.peer, somePid);
      assert t0 + [] == t0;
      while idx < nfds
        invariant Valid() && valid <= idx <= nfds && |t| == nfds
        invariant t == t0 + if idx > 0 then Arriving(t0, r.conn) else []
        invariant table[..valid] == Sweep(t[..idx], r.peer, somePid).kept && table[idx..nfds] == t[idx..]
        invariant mounts == old(mounts) + Sweep(t[..idx], r.peer, somePid).mounts
        invariant stop == (old(stop) || Sweep(t[..idx], r.peer, somePid).stop)
        invariant accepts == old(accepts) + (if idx > 0 && Takes(t0, r.conn) then [r.conn] else [])
        invariant listener && idx > 0 ==> valid > 0
        invariant Orderly(Remaining(valid, idx), listener) && Accounted(Remaining(valid, idx))
        invariant forall i :: idx <= i < nfds ==> Polled(table[i])
        decreases VFS_MAX_FDS - idx
      {
        assert table[idx] == table[idx..nfds][0] && table[idx..nfds][0] == t[idx];
        assert table[idx + 1..nfds] == table[idx..nfds][1..];
        assert idx == 0 ==> table[..nfds] == table[idx..nfds] && t == t0;
        valid := Visit(idx, valid, r, listener);
        SweepNext(t, idx, r.peer, somePid);
        if idx == 0 {
          Grown(t0, Arriving(t0, r.conn), 1);
          t := t0 + Arriving(t0, r.conn);
        }
        idx := idx + 1;
      }
      assert t[..idx] == t;
      NoneArriving(t0, r.conn);
      SweepArriving(t0, r.conn, r.peer, somePid);
      RemainingEnds(valid);
      nfds := valid;
    }

    /** Handles the entry at idx and keeps it, moved down to `valid`, unless it was closed. */
    method Visit(idx: nat, valid: nat, r: Round, ghost listener: bool) returns (valid': nat)
      requires Valid() && valid <= idx < nfds && (listener && idx > 0 ==> valid > 0)
      requires Orderly(Remaining(valid, idx), listener) && Accounted(Remaining(valid, idx))
      requires forall i :: idx <= i < nfds ==> Polled(table[i])
      modifies this, table
      ensures Valid() && valid' <= idx + 1 <= nfds && (listener ==> valid' > 0)
      ensures var e, p := old(table[idx]), r.peer(idx);
              && table[..valid'] == old(table[..valid]) + (if Turn(e, p).state.Closed? then [] else [Turn(e, p)])
              && mounts == old(mounts) + One(GetsMount(e, p) && p.action.pid == somePid)
              && stop == (old(stop) || AsksStop(e, p))
      ensures var takes := idx == 0 && Takes(old(table[..nfds]), r.conn);
              && table[idx + 1..nfds] == old(table[idx + 1..nfds]) + (if takes then Newcomer(r.conn) else [])
              && accepts == old(accepts) + (if takes then [r.conn] else [])
      ensures Orderly(Remaining(valid', idx + 1), listener) && Accounted(Remaining(valid', idx + 1))
      ensures forall i :: idx + 1 <= i < nfds ==> Polled(table[i])
    {
      hide Fds, Mounts, OwnedFds, OwnedMounts, Handled, Orderly, Steady, Polled, Lost, Turn, GetsMount, AsksStop,
        Newcomer;
      ghost var t0, n := table[..], nfds;
      assert Remaining(valid, idx) == t0[..valid] + t0[idx..n];
      assert t0[idx] == Remaining(valid, idx)[valid];
      OrderlyAt(Remaining(valid, idx), listener, valid);
      if table[idx].events == NOTHING {
        assert false;  // only closed entries wait for nothing, and none is left in the table
      }
      HandleEntry(idx, r.conn, r.peer(idx));
      ghost var t1 := table[..];
      assert t1[..n] == table[..n] && t0[..n][idx := t1[idx]] == t0[..n][idx := table[idx]];
      valid' := Keep(idx, valid);
      Visited(t0, t1, table[..], valid, idx, n, nfds, listener, someFd, somePid);
      assert Remaining(valid', idx + 1) == table[..][..valid'] + table[..][idx + 1..nfds];
    }

    /** Moves an entry down unless it is closed. */
    method Keep(idx: nat, valid: nat) returns (valid': nat)
      requires Valid() && valid <= idx < nfds
      modifies table
      ensures valid' == valid + One(!old(table[idx]).state.Closed?)
      ensures table[..] == if old(table[idx]).state.Closed? then old(table[..])
                           else old(table[..])[valid := old(table[idx])]
    {
      if table[idx].state.Closed? {
        valid' := valid;
      } else {
        if valid != idx {
          table[valid] := table[idx];
        }
        valid' := valid + 1;
      }
    }

    /** Waits for events: every entry gets some of the events it asked for, or poll fails and nothing changes. */
    method PollEvents(r: Round, ghost listener: bool)
      requires Valid() && Orderly(table[..nfds], listener) && Accounted(table[..nfds])
      modifies table
      ensures Orderly(table[..nfds], listener) && Accounted(table[..nfds])
      ensures !r.failed ==> forall i :: 0 <= i < nfds ==> Polled(table[i])
      ensures table[..nfds] == if r.failed then old(table[..nfds]) else Reported(old(table[..nfds]), r.ready)
    {
      if r.failed {
        return;
      }
      ghost var t := table[..nfds];
      forall i | 0 <= i < nfds {
        table[i] := table[i].(revents := Events(table[i].events.pollin && r.ready(i).pollin,
                                                table[i].events.pollout && r.ready(i).pollout));
      }
      assert table[..nfds] == Reported(t, r.ready) by {
        assert forall i :: 0 <= i < nfds ==> table[..nfds][i] == Reported(t, r.ready)[i];
      }
      SameBooks(t, table[..nfds], someFd, somePid);
    }

    /** Closes everything that is left in the table. */
    method RemoveAllFds()
      requires Valid() && Accounted(table[..nfds])
      modifies this`nfds, this`closed, this`unmounts, table
      ensures nfds == 0 && obtained == closed + LostFds() && mounts == unmounts
    {
      while nfds > 0
        invariant Valid() && Accounted(table[..nfds])
      {
        hide Fds, Mounts, OwnedFds, OwnedMounts;
        ghost var front, e := table[..nfds - 1], table[nfds - 1];
        assert table[..nfds] == front + [e];
        OwnedConcat(front, [e], someFd, somePid);
        OwnedOne(e, someFd, somePid);
        nfds := nfds - 1;
        RemoveFd(nfds);
        NothingOwned(someFd, somePid);
        assert table[..nfds] == front;
      }
    }

    ghost function Now(): Head
      requires Valid()
      reads this, table
    {
      Head(table[..nfds], accepts, mounts, stop)
    }

    /** One turn of the loop: wait for events and handle them, unless poll fails. */
    method ServeRound(r: Round, ghost listener: bool) returns (error: bool)
      requires Valid() && Orderly(table[..nfds], listener) && Accounted(table[..nfds])
      modifies this, table
      ensures Valid() && Orderly(table[..nfds], listener) && Accounted(table[..nfds])
      ensures error == (r.failed && !r.interrupted) && Now() == Next(old(Now()), r, somePid)
    {
      hide Orderly, Fds, Mounts, Lost, Next, Sweep, Takes, Arriving, Reported;
      NextOf(Now(), r, somePid);
      stop := stop || r.signalled;
      PollEvents(r, listener);
      error := r.failed && !r.interrupted;
      if !r.failed {
        Pass(r, listener);
      }
    }

    /**
      The daemon's loop, for any number of rounds.  Signals may arrive before any round, and poll
      may be interrupted or fail.  A run that returns 0 has undone every mount exactly once, and has
      closed a descriptor as often as it obtained it if and only if no accepted connection on it was
      lost; it has lost exactly those whose flags could not be set.  At every loop head there is one
      listener, unless its flags could not be set.
      */
    method ServerLoop(listenFd: int, fcntlOk: bool, rounds: seq<Round>) returns (exit: Exit)
      requires Valid() && obtained == closed == 0 && accepts == [] && mounts == unmounts
      modifies this, table
      ensures Valid() && |accepts| <= |rounds|
      ensures rounds != [] && rounds[0].signalled && (rounds[0].failed ==> rounds[0].interrupted) ==>
                exit.Zero? && |accepts| <= 1
      ensures rounds != [] && fcntlOk && TakesFirst(rounds[0]) ==> accepts != [] && accepts[0] == rounds[0].conn
      ensures exit.Zero? ==> nfds == 0 && stop && obtained == closed + LostFds() && mounts == unmounts
      ensures exit.Zero? ==> (obtained == closed <==> forall i :: 0 <= i < |accepts| ==> !IsLost(accepts[i], someFd))
      ensures !exit.Zero? ==> Orderly(table[..nfds], fcntlOk) && Accounted(table[..nfds])
      ensures var end := Run(Start(listenFd, fcntlOk, old(mounts)), rounds, somePid);
              && exit == end.exit && accepts == end.head.accepts && mounts == end.head.mounts && stop == end.head.stop
              && (!exit.Zero? ==> table[..nfds] == end.head.table)
    {
      hide Orderly, Fds, Mounts, Lost, Next, Run;
      nfds, stop := 0, false;
      var listening := AddFd(listenFd, Listening, fcntlOk);
      ghost var start := Start(listenFd, fcntlOk, mounts);
      assert Now() == start;
      assert rounds[0..] == rounds;
      StartInOrder(table[..nfds], listenFd, listening, someFd, somePid);
      var round := 0;
      while !stop
        invariant Valid() && Orderly(table[..nfds], fcntlOk) && Accounted(table[..nfds])
        invariant |accepts| <= round <= |rounds| && (round == 0 ==> Now() == start)
        invariant round > 0 && rounds[0].signalled ==> stop && round == 1
        invariant round > 0 && fcntlOk && TakesFirst(rounds[0]) ==> accepts != [] && accepts[0] == rounds[0].conn
        invariant Run(start, rounds, somePid) == Run(Now(), rounds[round..], somePid)
        decreases |rounds| - round
      {
        RunStep(Now(), rounds, round, somePid);
        if round >= |rounds| {
          return StillRunning;
        }
        NextAccepts(Now(), rounds[round], somePid);
        StartAccepts(listenFd, fcntlOk, old(mounts), rounds[round], somePid);
        var error := ServeRound(rounds[round], fcntlOk);
        round := round + 1;
        if error {
          return PollError;
        }
      }
      RunStep(Now(), rounds, round, somePid);
      RemoveAllFds();
      LostNone(accepts, someFd);
      exit := Zero;
    }
  }

  lemma RunStep(h: Head, rounds: seq<Round>, k: nat, pid: int)
    requires k <= |rounds|
    ensures Run(h, rounds[k..], pid) ==
            if h.stop then Ended(Zero, h) else if k == |rounds| then Ended(StillRunning, h)
            else if rounds[k].failed && !rounds[k].interrupted then Ended(PollError, Next(h, rounds[k], pid))
            else Run(Next(h, rounds[k], pid), rounds[k + 1..], pid)
  {
    assert k < |rounds| ==> rounds[k..][0] == rounds[k] && rounds[k..][1..] == rounds[k + 1..];
  }

  lemma NextOf(h: Head, r: Round, pid: int)
    ensures r.failed ==> Next(h, r, pid) == h.(stop := h.stop || r.signalled)
    ensures var t := Reported(h.table, r.ready);
            var swept := Sweep(t, r.peer, pid);
            !r.failed ==> Next(h, r, pid) ==
                          Head(swept.kept + Arriving(t, r.conn),
                               h.accepts + (if Takes(t, r.conn) then [r.conn] else []), h.mounts + swept.mounts,
                               h.stop || r.signalled || swept.stop)
  {}

  /** A round accepts at most one connection, and a signal stops the loop after it. */
  lemma NextAccepts(h: Head, r: Round, pid: int)
    ensures var h' := Next(h, r, pid);
            h.accepts <= h'.accepts && |h'.accepts| <= |h.accepts| + 1 && (r.signalled ==> h'.stop)
  {}

  lemma StartAccepts(listenFd: int, fcntlOk: bool, mounts: nat, r: Round, pid: int)
    ensures fcntlOk && TakesFirst(r) ==> Next(Start(listenFd, fcntlOk, mounts), r, pid).accepts == [r.conn]
  {
    if fcntlOk && TakesFirst(r) {
      var h := Start(listenFd, fcntlOk, mounts);
      assert Takes(Reported(h.table, r.ready), r.conn);
      NextOf(h, r, pid);
    }
  }

  lemma Grown<T>(t: seq<T>, added: seq<T>, k: nat)
    requires k <= |t|
    ensures (t + added)[..k] == t[..k] && (t + added)[k..] == t[k..] + added
  {}

  lemma NoneArriving(t: seq<Entry>, c: Connection)
    ensures t == [] ==> !Takes(t, c)
  {}

  /** The first round takes its connection, if there is a listener. */
  predicate TakesFirst(r: Round) { !r.failed && r.ready(0).pollin && r.conn.fd >= 0 }

  lemma StartInOrder(t: seq<Entry>, listenFd: int, listening: bool, fd: int, pid: int)
    requires t == if listening then [Entry(Listening, -1, -1, listenFd, Events(true, false), NOTHING)] else []
    ensures Orderly(t, listening) && Fds(t, fd) == 0 && Mounts(t, pid) == 0 && Lost([], fd) == 0
  {
    NothingOwned(fd, pid);
    if listening {
      OwnedOne(t[0], fd, pid);
    }
  }

  /** One connection whose flags cannot be set, and a signal: the daemon returns 0, and it is still open. */
  method LeakingRun(listenFd: int, fd: int) returns (s: Server, exit: Exit)
    requires fd >= 0
    ensures exit.Zero? && s.nfds == 0 && s.someFd == fd && s.obtained == s.closed + 1
  {
    s := new Server(fd, 0);
    var c := Connection(fd, true, false);
    var nobody := Peer(false, Other, -1, false);
    exit := s.ServerLoop(listenFd, true, [Round(true, false, false, _ => Events(true, false), c, _ => nobody)]);
    assert s.accepts == [c] && s.accepts[..0] == [];
    assert Lost([], fd) == 0 && Lost([c], fd) == 1;
  }

  lemma SweepOne(a: Entry, peer: nat -> Peer, pid: int)
    requires a.state.Listening? && !a.revents.pollout
    ensures Sweep([a], peer, pid) == Swept([a], 0, false)
  {
    assert [a][..0] == [];
  }

  lemma SweepTwo(a: Entry, b: Entry, peer: nat -> Peer, pid: int)
    requires a.state.Listening? && !a.revents.pollout
    ensures var b' := Turn(b, peer(1));
            Sweep([a, b], peer, pid) == Swept(if b'.state.Closed? then [a] else [a, b'],
                                              One(GetsMount(b, peer(1)) && peer(1).action.pid == pid),
                                              AsksStop(b, peer(1)))
  {
    assert [a, b][..1] == [a];
    SweepOne(a, peer, pid);
  }

  /** A round in which only the entry behind the listener is ready. */
  lemma NextOfTwo(h: Head, r: Round, pid: int)
    requires !r.failed && !r.ready(0).pollin && |h.table| == 2
    requires h.table[0].state.Listening? && !h.table[0].events.pollout
    ensures var t, p := Reported(h.table, r.ready), r.peer(1);
            var b := Turn(t[1], p);
            && t[0] == h.table[0].(revents := NOTHING)
            && Next(h, r, pid) == Head(if b.state.Closed? then [t[0]] else [t[0], b], h.accepts,
                                       h.mounts + One(GetsMount(t[1], p) && p.action.pid == pid),
                                       h.stop || r.signalled || AsksStop(t[1], p))
  {
    hide Sweep, Turn, GetsMount, AsksStop;
    var t := Reported(h.table, r.ready);
    assert t == [t[0], t[1]];
    SweepTwo(t[0], t[1], r.peer, pid);
    NextOf(h, r, pid);
    assert forall s: seq<Entry> :: s + [] == s;
    assert h.accepts + [] == h.accepts;
  }

  /** The rounds of a peer that connects, asks for a mount, and is sent the reply before a signal ends the run. */
  function PeerRounds(fd: int, pid: int, fuseFd: int): seq<Round> {
    var p := Peer(true, Mount(pid), fuseFd, true);
    var c, none := Connection(fd, true, true), Connection(-1, false, false);
    [Round(false, false, false, i => Events(i == 0, false), c, _ => p),
     Round(false, false, false, i => Events(i == 1, false), none, _ => p),
     Round(false, false, false, i => Events(false, i == 1), none, _ => p),
     Round(true, false, false, _ => NOTHING, none, _ => p)]
  }

  lemma PeerConnects(listenFd: int, fd: int, pid: int, fuseFd: int)
    requires fd >= 0
    ensures var h := Next(Start(listenFd, true, 0), PeerRounds(fd, pid, fuseFd)[0], pid);
            && |h.table| == 2 && h.table[0].state.Listening? && !h.table[0].events.pollout
            && h.table[1] == Entry(Accepted, -1, -1, fd, Events(true, false), NOTHING)
            && h.accepts == [Connection(fd, true, true)] && h.mounts == 0 && !h.stop
  {
    hide Sweep;
    var h, r := Start(listenFd, true, 0), PeerRounds(fd, pid, fuseFd)[0];
    var t := Reported(h.table, r.ready);
    assert t == [t[0]];
    SweepOne(t[0], r.peer, pid);
    NextOf(h, r, pid);
  }

  lemma PeerRun(listenFd: int, fd: int, pid: int, fuseFd: int)
    requires fd >= 0 && pid >= 0 && fuseFd >= 0
    ensures var end := Run(Start(listenFd, true, 0), PeerRounds(fd, pid, fuseFd), pid);
            end.exit.Zero? && end.head.mounts == 1 && end.head.accepts == [Connection(fd, true, true)]
  {
    hide Run, Next;
    var rounds := PeerRounds(fd, pid, fuseFd);
    var h0 := Start(listenFd, true, 0);
    PeerConnects(listenFd, fd, pid, fuseFd);
    var h1 := Next(h0, rounds[0], pid);
    NextOfTwo(h1, rounds[1], pid);
    var h2 := Next(h1, rounds[1], pid);
    NextOfTwo(h2, rounds[2], pid);
    var h3 := Next(h2, rounds[2], pid);
    NextOfTwo(h3, rounds[3], pid);
    var h4 := Next(h3, rounds[3], pid);
    assert rounds[0..] == rounds;
    RunStep(h0, rounds, 0, pid);
    RunStep(h1, rounds, 1, pid);
    RunStep(h2, rounds, 2, pid);
    RunStep(h3, rounds, 3, pid);
    RunStep(h4, rounds, 4, pid);
  }

  /** A peer that mounts: the run ends with one mount and one unmount for it, and nothing is left open. */
  method MountingRun(listenFd: int, fd: int, pid: int, fuseFd: int) returns (s: Server, exit: Exit)
    requires fd >= 0 && pid >= 0 && fuseFd >= 0
    ensures exit.Zero? && s.somePid == pid && s.mounts == 1 && s.unmounts == 1
    ensures s.someFd == fuseFd && s.obtained == s.closed && s.nfds == 0
  {
    hide Run;
    s := new Server(fuseFd, pid);
    PeerRun(listenFd, fd, pid, fuseFd);
    exit := s.ServerLoop(listenFd, true, PeerRounds(fd, pid, fuseFd));
  }

  lemma NothingOwned(fd: int, pid: int)
    ensures Fds([], fd) == 0 && Mounts([], pid) == 0 && OwnedFds(GONE, fd) == 0 && OwnedMounts(GONE, pid) == 0
  {}

  /** What is owned does not depend on the events poll returned. */
  lemma {:induction false} SameBooks(t: seq<Entry>, t': seq<Entry>, fd: int, pid: int)
    requires |t| == |t'| && forall i :: 0 <= i < |t| ==> t'[i] == t[i].(revents := t'[i].revents)
    ensures Fds(t', fd) == Fds(t, fd) && Mounts(t', pid) == Mounts(t, pid)
  {
    if t != [] {
      assert t'[0] == t[0].(revents := t'[0].revents);
      SameBooks(t[1..], t'[1..], fd, pid);
    }
  }

  lemma JoinRows(t0: seq<Entry>, t1: seq<Entry>, t2: seq<Entry>, lo: nat, n: nat, n': nat)
    requires |t0| == |t1| == |t2| && lo <= n <= n' <= |t0|
    requires forall i :: lo <= i < n' ==> t2[i] == if i < n then t0[i] else t1[i]
    ensures t2[lo..n'] == t0[lo..n] + t1[n..n']
  {
    var s := t0[lo..n] + t1[n..n'];
    forall j | 0 <= j < |s|
      ensures t2[lo..n'][j] == s[j]
    {
      assert t2[lo..n'][j] == t2[lo + j];
    }
  }

  /** The rows of the table before handling, after handling, and after keeping or dropping the entry. */
  lemma Rows(t0: seq<Entry>, t1: seq<Entry>, t2: seq<Entry>, valid: nat, idx: nat, n: nat, n': nat)
    requires |t0| == |t1| == |t2| && valid <= idx < n <= n' <= |t0|
    requires t1[..n] == t0[..n][idx := t1[idx]]
    requires t2 == if t1[idx].state.Closed? then t1 else t1[valid := t1[idx]]
    ensures var front, back, added := t0[..valid], t0[idx + 1..n], t1[n..n'];
            t2[..valid + One(!t1[idx].state.Closed?)] + t2[idx + 1..n'] ==
            if t1[idx].state.Closed? then front + (back + added) else front + [t1[idx]] + (back + added)
    ensures var valid' := valid + One(!t1[idx].state.Closed?);
            && t2[..valid'] == t0[..valid] + (if t1[idx].state.Closed? then [] else [t1[idx]])
            && t2[idx + 1..n'] == t0[idx + 1..n] + t1[n..n']
    ensures forall i :: idx < i < n' ==> t2[i] == if i < n then t0[i] else t1[i]
  {
    forall i | 0 <= i < n && i != idx
      ensures t1[i] == t0[i]
    {
      assert t1[..n][i] == t0[..n][idx := t1[idx]][i];
    }
    forall i | idx < i < n'
      ensures t2[i] == if i < n then t0[i] else t1[i]
    {
    }
    JoinRows(t0, t1, t2, idx + 1, n, n');
    assert t2[..valid] == t0[..valid];
    if !t1[idx].state.Closed? {
      assert t2[..valid + 1] == t0[..valid] + [t1[idx]];
    }
  }

  /** One visit: what the table still holds is in order, and the books change as handling did. */
  lemma Visited(t0: seq<Entry>, t1: seq<Entry>, t2: seq<Entry>, valid: nat, idx: nat, n: nat, n': nat,
                listener: bool, fd: int, pid: int)
    requires |t0| == |t1| == |t2| && valid <= idx < n <= n' <= |t0| && n' <= n + 1
    requires t1[..n] == t0[..n][idx := t1[idx]]
    requires t2 == if t1[idx].state.Closed? then t1 else t1[valid := t1[idx]]
    requires Orderly(t0[..valid] + t0[idx..n], listener) && (listener && idx > 0 ==> valid > 0)
    requires Handled(t0[idx], t1[idx]) && Steady(t0[idx])
    requires n' > n ==> Steady(t1[n]) && t1[n].state.Accepted?
    ensures var valid' := valid + One(!t1[idx].state.Closed?);
            var before, after := t0[..valid] + t0[idx..n], t2[..valid'] + t2[idx + 1..n'];
            && (listener ==> valid' > 0) && Orderly(after, listener)
            && Fds(after, fd) + OwnedFds(t0[idx], fd) ==
               Fds(before, fd) + OwnedFds(t1[idx], fd) + (if n' > n then OwnedFds(t1[n], fd) else 0)
            && Mounts(after, pid) + OwnedMounts(t0[idx], pid) == Mounts(before, pid) + OwnedMounts(t1[idx], pid)
    ensures forall i :: idx < i < n' ==> t2[i] == if i < n then t0[i] else t1[i]
    ensures var valid' := valid + One(!t1[idx].state.Closed?);
            && t2[..valid'] == t0[..valid] + (if t1[idx].state.Closed? then [] else [t1[idx]])
            && t2[idx + 1..n'] == t0[idx + 1..n] + t1[n..n']
  {
    hide Fds, Mounts, OwnedFds, OwnedMounts, Handled, Orderly, Steady;
    var front, e, back := t0[..valid], t0[idx], t0[idx + 1..n];
    var e', added := t1[idx], t1[n..n'];
    assert t0[idx..n] == [e] + back;
    assert front + [e] + back == front + t0[idx..n];
    OrderlyAt(front + t0[idx..n], listener, valid);
    RebookCount(front, e, e', back, added, fd, pid);
    NewBooks(added, fd, pid);
    Reorder(front, e, e', back, added, listener);
    HandledFacts(e, e');
    NothingOwned(fd, pid);
    Rows(t0, t1, t2, valid, idx, n, n');
  }

  lemma OrderlyAt(t: seq<Entry>, listener: bool, k: nat)
    requires Orderly(t, listener) && k < |t|
    ensures Steady(t[k]) && t[k].events.pollin && (t[k].state.Listening? <==> listener && k == 0)
  {}

  lemma HandledFacts(e: Entry, e': Entry)
    requires Handled(e, e') && Steady(e)
    ensures e'.state.Closed? ==> e' == GONE && !e.state.Listening?
  {}

  /** Replacing one entry and appending new ones changes the books by exactly the difference. */
  lemma RebookCount(front: seq<Entry>, e: Entry, e': Entry, back: seq<Entry>, added: seq<Entry>, fd: int, pid: int)
    requires |added| <= 1
    ensures Fds(front + [e] + back, fd) == Fds(front, fd) + OwnedFds(e, fd) + Fds(back, fd)
    ensures Mounts(front + [e] + back, pid) == Mounts(front, pid) + OwnedMounts(e, pid) + Mounts(back, pid)
    ensures Fds(front + [e'] + (back + added), fd) == Fds(front, fd) + OwnedFds(e', fd) + Fds(back, fd) + Fds(added, fd)
    ensures Mounts(front + [e'] + (back + added), pid) ==
            Mounts(front, pid) + OwnedMounts(e', pid) + Mounts(back, pid) + Mounts(added, pid)
    ensures Fds(front + (back + added), fd) == Fds(front, fd) + Fds(back, fd) + Fds(added, fd)
    ensures Mounts(front + (back + added), pid) == Mounts(front, pid) + Mounts(back, pid) + Mounts(added, pid)
  {
    hide Fds, Mounts, OwnedFds, OwnedMounts;
    OwnedOne(e, fd, pid);
    OwnedOne(e', fd, pid);
    OwnedConcat(front, [e], fd, pid);
    OwnedConcat(front + [e], back, fd, pid);
    OwnedConcat(front, [e'], fd, pid);
    OwnedConcat(front + [e'], back + added, fd, pid);
    OwnedConcat(back, added, fd, pid);
    OwnedConcat(front, back + added, fd, pid);
  }

  lemma NewBooks(added: seq<Entry>, fd: int, pid: int)
    requires |added| <= 1 && (added != [] ==> added[0].state.Accepted?)
    ensures Fds(added, fd) == (if added == [] then 0 else OwnedFds(added[0], fd)) && Mounts(added, pid) == 0
    ensures OwnedFds(GONE, fd) == 0 && OwnedMounts(GONE, pid) == 0
  {
    if added != [] {
      assert added == [added[0]];
      OwnedOne(added[0], fd, pid);
    }
  }

  /** Order is kept when an entry is handled and new connections come in at the end. */
  lemma Reorder(front: seq<Entry>, e: Entry, e': Entry, back: seq<Entry>, added: seq<Entry>, listener: bool)
    requires Orderly(front + [e] + back, listener) && Handled(e, e')
    requires forall i :: 0 <= i < |added| ==> Steady(added[i]) && added[i].state.Accepted?
    ensures !e'.state.Closed? ==> Orderly(front + [e'] + (back + added), listener)
    ensures e'.state.Closed? ==> Orderly(front + (back + added), listener)
  {
    hide Orderly, Steady;
    if e'.state.Closed? {
      ReorderGone(front, e, back, added, listener);
    } else {
      ReorderKept(front, e, e', back, added, listener);
    }
  }

  ghost predicate InPlace(e: Entry, listener: bool, i: nat) {
    Steady(e) && (e.state.Listening? <==> listener && i == 0)
  }

  lemma OrderlyIff(t: seq<Entry>, listener: bool)
    ensures Orderly(t, listener) <==>
            (forall i :: 0 <= i < |t| ==> InPlace(t[i], listener, i)) && (listener ==> t != [])
  {}

  lemma ReorderKept(front: seq<Entry>, e: Entry, e': Entry, back: seq<Entry>, added: seq<Entry>, listener: bool)
    requires Orderly(front + [e] + back, listener) && Handled(e, e') && !e'.state.Closed?
    requires forall i :: 0 <= i < |added| ==> Steady(added[i]) && added[i].state.Accepted?
    ensures Orderly(front + [e'] + (back + added), listener)
  {
    hide Orderly, Steady;
    var t0, t := front + [e] + back, front + [e'] + (back + added);
    OrderlyIff(t0, listener);
    OrderlyIff(t, listener);
    assert t0[|front|] == e;
    forall i | 0 <= i < |t|
      ensures InPlace(t[i], listener, i)
    {
      assert t[i] == if i == |front| then e' else if i < |t0| then t0[i] else added[i - |t0|];
    }
  }

  lemma ReorderGone(front: seq<Entry>, e: Entry, back: seq<Entry>, added: seq<Entry>, listener: bool)
    requires Orderly(front + [e] + back, listener) && !e.state.Listening?
    requires forall i :: 0 <= i < |added| ==> Steady(added[i]) && added[i].state.Accepted?
    ensures Orderly(front + (back + added), listener)
  {
    hide Orderly, Steady;
    var t0, t := front + [e] + back, front + (back + added);
    OrderlyIff(t0, listener);
    OrderlyIff(t, listener);
    assert t0[|front|] == e;
    forall i | 0 <= i < |t|
      ensures InPlace(t[i], listener, i)
    {
      var n := |front|;
      assert t[i] == if i < n then t0[i] else if i < n + |back| then t0[i + 1] else added[i - n - |back|];
    }
  }
}
