/** Waiting on several sockets: epollOnce with its backward goto, and ReadMultiSocksOnce on top. */
module Epoll {
  import opened Options

  datatype Event = Event(fd: int, err: bool, hup: bool, readable: bool)

  datatype Wait = WaitFails | Events(evs: seq<Event>)

  /** What the k-th EpollWait reports while the given descriptors are registered. */
  type Kernel = (nat, set<int>) -> Wait

  /** The operating system in one call: EpollCreate1 succeeds, a descriptor is accepted for
      registration, what the waits report, reading from the socket at an index succeeds. */
  datatype Os = Os(created: bool, accepts: int -> bool, kernel: Kernel, delivers: nat -> bool)

  // ---------------------------------------------------------------- one batch of events

  /** The last socket with that descriptor: a later match overwrites an earlier one. */
  function LastWith(fds: seq<int>, fd: int): (r: Option<nat>)
    ensures r.Some? ==> r.value < |fds| && fds[r.value] == fd
    ensures r.None? <==> fd !in fds
  {
    if fds == [] then None
    else if fds[|fds| - 1] == fd then Some(|fds| - 1)
    else LastWith(fds[..|fds| - 1], fd)
  }

  predicate Hung(e: Event) {
    e.err || e.hup
  }

  /** remain: sockets not hung up.  pick: the socket to read.  dead: descriptors taken out.
      retry: the rest of the batch was given up for another wait. */
  datatype Scanned = Scanned(remain: int, pick: Option<nat>, dead: seq<int>, retry: bool)

  function Scan(fds: seq<int>, evs: seq<Event>, remain: int, pick: Option<nat>): (r: Scanned)
    ensures r.remain == remain - |r.dead|
    ensures r.retry ==> 0 < r.remain < remain
    ensures pick.Some? ==> r.pick == pick
  {
    if evs == [] then Scanned(remain, pick, [], false) else
    var e := evs[0];
    match LastWith(fds, e.fd)
    case None => Scan(fds, evs[1..], remain, pick)
    case Some(i) =>
      var left := if Hung(e) then remain - 1 else remain;
      if Hung(e) && left > 0 then Scanned(left, pick, [e.fd], true) else
      var r := Scan(fds, evs[1..], left, if e.readable && pick.None? then Some(i) else pick);
      r.(dead := (if Hung(e) then [e.fd] else []) + r.dead)
  }

  // ---------------------------------------------------------------- all waits of one call

  function ToSet(s: seq<int>): set<int> {
    set x | x in s
  }

  /** seen: the batches of the successful waits, in order. */
  datatype Polled = Polled(failed: bool, pick: Option<nat>, dead: seq<int>, remain: int, seen: seq<seq<Event>>)

  function Poll(fds: seq<int>, kernel: Kernel, k: nat, reg: set<int>, remain: int, pick: Option<nat>): Polled
    decreases remain
  {
    match kernel(k, reg)
    case WaitFails => Polled(true, None, [], remain, [])
    case Events(evs) =>
      var b := Scan(fds, evs, remain, pick);
      if !b.retry then Polled(false, b.pick, b.dead, b.remain, [evs]) else
      After(evs, b.dead, Poll(fds, kernel, k + 1, reg - ToSet(b.dead), b.remain, b.pick))
  }

  function After(evs: seq<Event>, dead: seq<int>, p: Polled): Polled {
    p.(dead := dead + p.dead, seen := [evs] + p.seen)
  }

  /** The result of a call that has already seen batches and taken out descriptors. */
  function Joined(seen: seq<seq<Event>>, dead: seq<int>, p: Polled): Polled {
    p.(dead := dead + p.dead, seen := seen + p.seen)
  }

  lemma JoinedAfter(seen: seq<seq<Event>>, dead: seq<int>, evs: seq<Event>, d: seq<int>, p: Polled)
    ensures Joined(seen, dead, After(evs, d, p)) == Joined(seen + [evs], dead + d, p)
    ensures Joined([], [], p) == p
    ensures Joined(seen, dead, Polled(false, p.pick, d, p.remain, [evs]))
            == Polled(false, p.pick, dead + d, p.remain, seen + [evs])
  {
    assert dead + (d + p.dead) == dead + d + p.dead;
    assert seen + ([evs] + p.seen) == seen + [evs] + p.seen;
    assert [] + p.dead == p.dead && [] + p.seen == p.seen;
  }

  /** EpollWait calls of the whole call. */
  function Waits(p: Polled): nat {
    |p.seen| + if p.failed then 1 else 0
  }

  // ---------------------------------------------------------------- the code as it runs

  class Socket {
    const fd: int
    var isValid: bool

    constructor (fd: int)
      ensures this.fd == fd && isValid
    {
      this.fd := fd;
      isValid := true;
    }

    method OnClosed()
      modifies this`isValid
      ensures !isValid
    {
      isValid := false;
    }
  }

  function Fds(socks: seq<Socket>): (r: seq<int>)
    ensures |r| == |socks| && forall i :: 0 <= i < |socks| ==> r[i] == socks[i].fd
  {
    seq(|socks|, i requires 0 <= i < |socks| => socks[i].fd)
  }

  predicate Distinct(s: seq<int>) {
    forall i, j :: 0 <= i < j < |s| ==> s[i] != s[j]
  }

  lemma DistinctSnoc(s: seq<int>, x: int)
    ensures Distinct(s + [x]) <==> Distinct(s) && x !in s
    ensures ToSet(s + [x]) == ToSet(s) + {x}
  {
    if Distinct(s + [x]) {
      forall i | 0 <= i < |s| ensures s[i] != x && forall j :: i < j < |s| ==> s[i] != s[j] {
        assert (s + [x])[i] == s[i] && (s + [x])[|s|] == x;
        assert forall j :: i < j < |s| ==> (s + [x])[j] == s[j];
      }
    }
  }

  lemma DistinctPrefix(s: seq<int>, n: nat)
    requires Distinct(s) && n <= |s|
    ensures Distinct(s[..n])
  {
  }

  predicate Accepted(accepts: int -> bool, fds: seq<int>) {
    forall i :: 0 <= i < |fds| ==> accepts(fds[i])
  }

  /** Registration refuses a descriptor that is registered already, so it succeeds only when all
      descriptors differ. */
  method Register(fds: seq<int>, accepts: int -> bool) returns (ok: bool, reg: set<int>)
    ensures ok <==> Distinct(fds) && Accepted(accepts, fds)
    ensures ok ==> reg == ToSet(fds) && |reg| == |fds|
  {
    reg := {};
    for i := 0 to |fds|
      invariant Distinct(fds[..i]) && reg == ToSet(fds[..i]) && |reg| == i
      invariant Accepted(accepts, fds[..i])
    {
      assert fds[..i + 1] == fds[..i] + [fds[i]];
      DistinctSnoc(fds[..i], fds[i]);
      if fds[i] in reg || !accepts(fds[i]) {
        if Distinct(fds) {
          DistinctPrefix(fds, i + 1);
        }
        return false, reg;
      }
      reg := reg + {fds[i]};
    }
    assert fds[..|fds|] == fds;
    ok := true;
  }

  lemma {:induction false} DistinctLast(fds: seq<int>, i: nat)
    requires Distinct(fds) && i < |fds|
    ensures LastWith(fds, fds[i]) == Some(i)
  {
    var n := |fds| - 1;
    if i < n {
      assert fds[..n][i] == fds[i];
      DistinctLast(fds[..n], i);
    }
  }

  method Find(socks: seq<Socket>, fd: int) returns (sock: Socket?)
    ensures var i := LastWith(Fds(socks), fd);
            sock == if i.Some? then socks[i.value] else null
  {
    sock := null;
    for k := 0 to |socks|
      invariant var i := LastWith(Fds(socks)[..k], fd);
                sock == if i.Some? then socks[i.value] else null
    {
      assert Fds(socks)[..k + 1][..k] == Fds(socks)[..k];
      if socks[k].fd == fd {
        sock := socks[k];
      }
    }
    assert Fds(socks)[..|socks|] == Fds(socks);
  }

  function At(socks: seq<Socket>, i: Option<nat>): Socket?
    requires i.Some? ==> i.value < |socks|
  {
    if i.Some? then socks[i.value] else null
  }

  function Resumed(gone: seq<int>, b: Scanned): Scanned {
    b.(dead := gone + b.dead)
  }

  /** What one event adds to a scan that has already taken out some descriptors. */
  lemma ScanNext(fds: seq<int>, evs: seq<Event>, j: nat, remain: int, now: Option<nat>, gone: seq<int>)
    requires j < |evs|
    ensures var (e, b) := (evs[j], Resumed(gone, Scan(fds, evs[j..], remain, now)));
            var i := LastWith(fds, e.fd);
            var left := if Hung(e) then remain - 1 else remain;
            var out := if Hung(e) then gone + [e.fd] else gone;
            var pick := if e.readable && now.None? then i else now;
            if i.None? then b == Resumed(gone, Scan(fds, evs[j + 1..], remain, now))
            else if Hung(e) && left > 0 then b == Scanned(left, now, out, true)
            else b == Resumed(out, Scan(fds, evs[j + 1..], left, pick))
  {
    assert evs[j..][1..] == evs[j + 1..];
    var e := evs[j];
    var i := LastWith(fds, e.fd);
    if i.Some? {
      var left := if Hung(e) then remain - 1 else remain;
      var r := Scan(fds, evs[j + 1..], left, if e.readable && now.None? then i else now);
      assert gone + ([e.fd] + r.dead) == gone + [e.fd] + r.dead;
      assert gone + ([] + r.dead) == gone + r.dead;
    }
  }

  lemma ScanEnds(fds: seq<int>, evs: seq<Event>, remain: int, now: Option<nat>, gone: seq<int>)
    ensures Resumed([], Scan(fds, evs[0..], remain, now)) == Scan(fds, evs, remain, now)
    ensures Resumed(gone, Scan(fds, evs[|evs|..], remain, now)) == Scanned(remain, now, gone, false)
  {
    assert evs[0..] == evs && evs[|evs|..] == [] && gone + [] == gone;
    assert [] + Scan(fds, evs, remain, now).dead == Scan(fds, evs, remain, now).dead;
  }

  lemma OnlyOneClosed(socks: seq<Socket>, i: nat)
    requires Distinct(Fds(socks)) && i < |socks|
    ensures forall s :: s in socks && s.fd == socks[i].fd ==> s == socks[i]
  {
    forall s | s in socks && s.fd == socks[i].fd ensures s == socks[i] {
      var j :| 0 <= j < |socks| && socks[j] == s;
      assert Fds(socks)[j] == Fds(socks)[i];
    }
  }

  method TakeOut(socks: seq<Socket>, sock: Socket, ghost i: nat)
    requires Distinct(Fds(socks)) && i < |socks| && socks[i] == sock
    modifies sock`isValid
    ensures forall s: Socket :: s in socks ==> (s.isValid <==> old(s.isValid) && s.fd != sock.fd)
  {
    OnlyOneClosed(socks, i);
    sock.OnClosed();
  }

  /** The loop over one batch; gone collects the descriptors taken out of the epoll set. */
  method HandleBatch(socks: seq<Socket>, evs: seq<Event>, remainsock: int, readSock: Socket?, ghost pick: Option<nat>)
    returns (remain: int, read: Socket?, gone: seq<int>, retry: bool)
    requires Distinct(Fds(socks))
    requires (pick.Some? ==> pick.value < |socks|) && readSock == At(socks, pick)
    modifies (set s | s in socks)`isValid
    ensures var b := Scan(Fds(socks), evs, remainsock, pick);
            && remain == b.remain && gone == b.dead && retry == b.retry
            && (b.pick.Some? ==> b.pick.value < |socks|) && read == At(socks, b.pick)
            && forall s :: s in socks ==> (s.isValid <==> old(s.isValid) && s.fd !in b.dead)
  {
    hide Resumed;
    var fds := Fds(socks);
    ghost var now: Option<nat> := pick;
    remain, read, gone, retry := remainsock, readSock, [], false;
    var j := 0;
    ScanEnds(fds, evs, remain, now, gone);
    while j < |evs|
      invariant 0 <= j <= |evs|
      invariant !retry && (now.Some? ==> now.value < |socks|) && read == At(socks, now)
      invariant Scan(fds, evs, remainsock, pick) == Resumed(gone, Scan(fds, evs[j..], remain, now))
      invariant forall s :: s in socks ==> (s.isValid <==> old(s.isValid) && s.fd !in gone)
    {
      var e := evs[j];
      ScanNext(fds, evs, j, remain, now, gone);
      j := j + 1;
      var sock := Find(socks, e.fd);
      if sock == null {
        continue;
      }
      ghost var i: nat := LastWith(fds, e.fd).value;
      if e.err || e.hup {
        TakeOut(socks, sock, i);
        gone := gone + [e.fd];
        remain := remain - 1;
        if remain > 0 {
          retry := true;
          return;
        }
      }
      if e.readable && read == null {
        read, now := sock, Some(i);
      }
    }
    ScanEnds(fds, evs, remain, now, gone);
  }

  /** The epoll set can be made. */
  predicate Ready(os: Os, fds: seq<int>) {
    os.created && Distinct(fds) && Accepted(os.accepts, fds)
  }

  function PollAll(fds: seq<int>, kernel: Kernel): Polled {
    Poll(fds, kernel, 0, ToSet(fds), |fds|, None)
  }

  /** One call.  The goto is the loop: each retry has one socket less to wait for. */
  method EpollOnce(socks: seq<Socket>, os: Os)
    returns (failed: bool, readSock: Socket?, remainsock: int, waits: nat)
    modifies (set s | s in socks)`isValid
    ensures !Ready(os, Fds(socks)) ==>
              failed && readSock == null && waits == 0 && forall s :: s in socks ==> s.isValid == old(s.isValid)
    ensures Ready(os, Fds(socks)) ==>
              var p := PollAll(Fds(socks), os.kernel);
              && failed == p.failed && waits == Waits(p)
              && (!failed ==> remainsock == p.remain)
              && (p.pick.Some? ==> p.pick.value < |socks|) && readSock == At(socks, p.pick)
              && forall s :: s in socks ==> (s.isValid <==> old(s.isValid) && s.fd !in p.dead)
  {
    var kernel := os.kernel;
    var fds := Fds(socks);
    readSock, remainsock, waits := null, |socks|, 0;
    if !os.created {
      return true, null, remainsock, 0;
    }
    var ok, reg := Register(fds, os.accepts);
    if !ok {
      return true, null, remainsock, 0;
    }
    ghost var all := Poll(fds, kernel, 0, reg, |socks|, None);
    ghost var pick: Option<nat> := None;
    JoinedAfter([], [], [], [], all);
    ghost var seen: seq<seq<Event>>, dead: seq<int> := [], [];
    var retry := true;
    while retry
      invariant retry ==> remainsock >= 0
      invariant waits == |seen|
      invariant (pick.Some? ==> pick.value < |socks|) && readSock == At(socks, pick)
      invariant forall s :: s in socks ==> (s.isValid <==> old(s.isValid) && s.fd !in dead)
      invariant if retry then
                  all == Joined(seen, dead, Poll(fds, kernel, waits, reg, remainsock, pick))
                else all == Polled(false, pick, dead, remainsock, seen)
      decreases retry, remainsock
    {
      var w := kernel(waits, reg);
      match w
      case WaitFails =>
        return true, null, remainsock, waits + 1;
      case Events(evs) =>
        ghost var b := Scan(fds, evs, remainsock, pick);
        ghost var p := Poll(fds, kernel, waits, reg, remainsock, pick);
        var gone;
        remainsock, readSock, gone, retry := HandleBatch(socks, evs, remainsock, readSock, pick);
        reg := reg - ToSet(gone);
        if retry {
          JoinedAfter(seen, dead, evs, gone, Poll(fds, kernel, waits + 1, reg, remainsock, b.pick));
        } else {
          JoinedAfter(seen, dead, evs, gone, Polled(false, b.pick, gone, remainsock, [evs]));
        }
        waits := waits + 1;
        pick := b.pick;
        dead := dead + gone;
        seen := seen + [evs];
    }
    failed := false;
  }

  /** WaitFails: creating the epoll set, registering or waiting fails.  NoSocket: index -1 without an
      error.  ReadFrom: what reading from the socket at that index gives. */
  datatype ReadResult = WaitFails | NoSocket | ReadFrom(index: nat, ok: bool) | Unexpected

  function ReadOutcome(fds: seq<int>, os: Os): ReadResult {
    if !Ready(os, fds) then ReadResult.WaitFails else
    var p := PollAll(fds, os.kernel);
    if p.failed then ReadResult.WaitFails
    else if p.pick.None? then NoSocket
    else ReadFrom(p.pick.value, os.delivers(p.pick.value))
  }

  method ReadMultiSocksOnce(socks: seq<Socket>, os: Os) returns (r: ReadResult)
    modifies (set s | s in socks)`isValid
    ensures !r.Unexpected?
    ensures r == ReadOutcome(Fds(socks), os)
    ensures r.ReadFrom? ==> r.index < |socks|
  {
    var failed, s, _, _ := EpollOnce(socks, os);
    if failed {
      return ReadResult.WaitFails;
    }
    if s == null {
      return NoSocket;
    }
    for i := 0 to |socks|
      invariant forall j :: 0 <= j < i ==> socks[j] != s
    {
      if socks[i] == s {
        ghost var k := PollAll(Fds(socks), os.kernel).pick.value;
        assert Fds(socks)[i] == Fds(socks)[k];
        return ReadFrom(i, os.delivers(i));
      }
    }
    r := Unexpected;
  }

  // ---------------------------------------------------------------- what a call promises

  /** A call waits at most once per socket, whatever the kernel reports. */
  lemma {:induction false} WaitsBound(fds: seq<int>, kernel: Kernel, k: nat, reg: set<int>,
        remain: int, pick: Option<nat>)
    ensures Waits(Poll(fds, kernel, k, reg, remain, pick)) <= if remain >= 1 then remain else 1
    decreases remain
  {
    if kernel(k, reg).Events? {
      var b := Scan(fds, kernel(k, reg).evs, remain, pick);
      if b.retry {
        WaitsBound(fds, kernel, k + 1, reg - ToSet(b.dead), b.remain, b.pick);
      }
    }
  }

  /** Each wait reports only registered descriptors, each at most once. */
  ghost predicate Faithful(kernel: Kernel) {
    forall k: nat, reg: set<int> {:trigger kernel(k, reg)} :: kernel(k, reg).Events? ==>
      var evs := kernel(k, reg).evs;
      && (forall i :: 0 <= i < |evs| ==> evs[i].fd in reg)
      && (forall i, j :: 0 <= i < j < |evs| ==> evs[i].fd != evs[j].fd)
  }

  lemma {:induction false} ScanTakesOut(fds: seq<int>, evs: seq<Event>, remain: int, pick: Option<nat>, reg: set<int>)
    requires forall i :: 0 <= i < |evs| ==> evs[i].fd in reg
    requires forall i, j :: 0 <= i < j < |evs| ==> evs[i].fd != evs[j].fd
    ensures var b := Scan(fds, evs, remain, pick);
            && Distinct(b.dead)
            && (forall x :: x in b.dead ==>
                  x in reg && exists i :: 0 <= i < |evs| && evs[i].fd == x && (evs[i].err || evs[i].hup))
    decreases |evs|
  {
    if evs != [] {
      var e := evs[0];
      var i := LastWith(fds, e.fd);
      if i.Some? {
        var left := if Hung(e) then remain - 1 else remain;
        var next := if e.readable && pick.None? then i else pick;
        ScanTakesOut(fds, evs[1..], left, next, reg);
        TailOf(evs, Scan(fds, evs[1..], left, next).dead);
      } else {
        ScanTakesOut(fds, evs[1..], remain, pick, reg);
        TailOf(evs, Scan(fds, evs[1..], remain, pick).dead);
      }
    }
  }

  lemma TailOf(evs: seq<Event>, dead: seq<int>)
    requires evs != []
    requires forall x :: x in dead ==>
               exists i :: 0 <= i < |evs[1..]| && evs[1..][i].fd == x && (evs[1..][i].err || evs[1..][i].hup)
    ensures forall x :: x in dead ==> exists i :: 1 <= i < |evs| && evs[i].fd == x && (evs[i].err || evs[i].hup)
  {
    forall x | x in dead ensures exists i :: 1 <= i < |evs| && evs[i].fd == x && (evs[i].err || evs[i].hup) {
      var i :| 0 <= i < |evs[1..]| && evs[1..][i].fd == x && (evs[1..][i].err || evs[1..][i].hup);
      assert evs[i + 1].fd == x && (evs[i + 1].err || evs[i + 1].hup);
    }
  }

  lemma {:induction false} DistinctSize(s: seq<int>)
    requires Distinct(s)
    ensures |ToSet(s)| == |s|
  {
    if s != [] {
      var n := |s| - 1;
      assert s == s[..n] + [s[n]];
      DistinctSnoc(s[..n], s[n]);
      DistinctSize(s[..n]);
    }
  }

  /** With a faithful kernel, remainsock is the number of sockets still registered, so it is never
      negative, and nothing is taken out twice. */
  lemma {:induction false} RemainCountsRegistered(fds: seq<int>, kernel: Kernel, k: nat,
        reg: set<int>, pick: Option<nat>)
    requires Faithful(kernel)
    ensures var p := Poll(fds, kernel, k, reg, |reg|, pick);
            !p.failed ==> Distinct(p.dead) && ToSet(p.dead) <= reg && p.remain == |reg - ToSet(p.dead)|
    decreases |reg|
  {
    if kernel(k, reg).Events? {
      var evs := kernel(k, reg).evs;
      var b := Scan(fds, evs, |reg|, pick);
      ScanTakesOut(fds, evs, |reg|, pick, reg);
      DistinctSize(b.dead);
      assert ToSet(b.dead) <= reg;
      assert |reg - ToSet(b.dead)| == |reg| - |b.dead|;
      if b.retry {
        var rest := reg - ToSet(b.dead);
        RemainCountsRegistered(fds, kernel, k + 1, rest, b.pick);
        var p := Poll(fds, kernel, k + 1, rest, |rest|, b.pick);
        if !p.failed {
          JoinDead(reg, b.dead, p.dead);
        }
      }
    }
  }

  lemma JoinDead(reg: set<int>, a: seq<int>, b: seq<int>)
    requires Distinct(a) && Distinct(b) && ToSet(a) <= reg && ToSet(b) <= reg - ToSet(a)
    ensures Distinct(a + b) && ToSet(a + b) <= reg
    ensures reg - ToSet(a + b) == reg - ToSet(a) - ToSet(b)
  {
    assert ToSet(a + b) == ToSet(a) + ToSet(b);
    forall i, j | 0 <= i < j < |a + b| ensures (a + b)[i] != (a + b)[j] {
      if i < |a| <= j {
        assert a[i] in ToSet(a) && b[j - |a|] in ToSet(b);
      }
    }
  }

  predicate BatchReadable(evs: seq<Event>, fd: int) {
    exists i :: 0 <= i < |evs| && evs[i].fd == fd && evs[i].readable
  }

  /** Some batch of the call reported the descriptor readable. */
  predicate SeenReadable(seen: seq<seq<Event>>, fd: int) {
    exists j :: 0 <= j < |seen| && BatchReadable(seen[j], fd)
  }

  lemma {:induction false} ScanPicksReadable(fds: seq<int>, evs: seq<Event>, remain: int, pick: Option<nat>)
    ensures var b := Scan(fds, evs, remain, pick);
            && (pick.None? && b.pick.Some? ==> b.pick.value < |fds| && BatchReadable(evs, fds[b.pick.value]))
            && (b.pick.None? && !b.retry ==> forall fd :: fd in fds ==> !BatchReadable(evs, fd))
    decreases |evs|
  {
    if evs != [] {
      var e := evs[0];
      var i := LastWith(fds, e.fd);
      forall fd ensures BatchReadable(evs, fd) <==> (e.fd == fd && e.readable) || BatchReadable(evs[1..], fd) {
        BatchCons(evs, fd);
      }
      if i.Some? {
        var left := if Hung(e) then remain - 1 else remain;
        ScanPicksReadable(fds, evs[1..], left, if e.readable && pick.None? then i else pick);
      } else {
        ScanPicksReadable(fds, evs[1..], remain, pick);
      }
    }
  }

  lemma BatchCons(evs: seq<Event>, fd: int)
    requires evs != []
    ensures BatchReadable(evs, fd) <==> (evs[0].fd == fd && evs[0].readable) || BatchReadable(evs[1..], fd)
  {
    if BatchReadable(evs[1..], fd) {
      var i :| 0 <= i < |evs[1..]| && evs[1..][i].fd == fd && evs[1..][i].readable;
      assert evs[i + 1].fd == fd && evs[i + 1].readable;
    }
    if BatchReadable(evs, fd) {
      var i :| 0 <= i < |evs| && evs[i].fd == fd && evs[i].readable;
      if i > 0 {
        assert evs[1..][i - 1].fd == fd && evs[1..][i - 1].readable;
      }
    }
  }

  /** The socket to read is one that some wait of the call reported readable, also across retries;
      without one, the last wait reported none of the sockets readable. */
  lemma {:induction false} PickIsReadable(fds: seq<int>, kernel: Kernel, k: nat, reg: set<int>,
        remain: int, pick: Option<nat>)
    ensures var p := Poll(fds, kernel, k, reg, remain, pick);
            && (pick.None? && p.pick.Some? ==> p.pick.value < |fds| && SeenReadable(p.seen, fds[p.pick.value]))
            && (!p.failed && p.pick.None? ==>
                  |p.seen| > 0 && forall fd :: fd in fds ==> !BatchReadable(p.seen[|p.seen| - 1], fd))
    decreases remain
  {
    if kernel(k, reg).Events? {
      var evs := kernel(k, reg).evs;
      var b := Scan(fds, evs, remain, pick);
      var p := Poll(fds, kernel, k, reg, remain, pick);
      ScanPicksReadable(fds, evs, remain, pick);
      assert p.seen[0] == evs;
      if b.retry {
        PickIsReadable(fds, kernel, k + 1, reg - ToSet(b.dead), b.remain, b.pick);
        var q := Poll(fds, kernel, k + 1, reg - ToSet(b.dead), b.remain, b.pick);
        KeepsPick(fds, kernel, k + 1, reg - ToSet(b.dead), b.remain, b.pick);
        FailedHasNoPick(fds, kernel, k + 1, reg - ToSet(b.dead), b.remain, b.pick);
        if pick.None? && b.pick.None? && q.pick.Some? {
          var j :| 0 <= j < |q.seen| && BatchReadable(q.seen[j], fds[q.pick.value]);
          assert p.seen[j + 1] == q.seen[j];
        }
      }
    }
  }

  lemma {:induction false} FailedHasNoPick(fds: seq<int>, kernel: Kernel, k: nat, reg: set<int>,
        remain: int, pick: Option<nat>)
    ensures var p := Poll(fds, kernel, k, reg, remain, pick);
            p.failed ==> p.pick.None?
    decreases remain
  {
    if kernel(k, reg).Events? {
      var b := Scan(fds, kernel(k, reg).evs, remain, pick);
      if b.retry {
        FailedHasNoPick(fds, kernel, k + 1, reg - ToSet(b.dead), b.remain, b.pick);
      }
    }
  }

  lemma {:induction false} KeepsPick(fds: seq<int>, kernel: Kernel, k: nat, reg: set<int>,
        remain: int, pick: Option<nat>)
    ensures var p := Poll(fds, kernel, k, reg, remain, pick);
            pick.Some? && !p.failed ==> p.pick == pick
    decreases remain
  {
    if kernel(k, reg).Events? {
      var b := Scan(fds, kernel(k, reg).evs, remain, pick);
      if b.retry {
        KeepsPick(fds, kernel, k + 1, reg - ToSet(b.dead), b.remain, b.pick);
      }
    }
  }

  /** The first event of the batch that is about one of the sockets and carries EPOLLERR or EPOLLHUP. */
  predicate FirstHangUp(fds: seq<int>, evs: seq<Event>, i: nat) {
    && i < |evs| && evs[i].fd in fds && (evs[i].err || evs[i].hup)
    && forall j :: 0 <= j < i ==> !(evs[j].fd in fds && (evs[j].err || evs[j].hup))
  }

  lemma {:induction false} ScanFirstHangUp(fds: seq<int>, evs: seq<Event>, remain: int, pick: Option<nat>, i: nat)
    requires FirstHangUp(fds, evs, i)
    ensures evs[i].fd in Scan(fds, evs, remain, pick).dead
    decreases |evs|
  {
    if i > 0 {
      var e := evs[0];
      var next := if LastWith(fds, e.fd).Some? && e.readable && pick.None? then LastWith(fds, e.fd) else pick;
      assert FirstHangUp(fds, evs[1..], i - 1);
      assert !(evs[0].fd in fds && (evs[0].err || evs[0].hup));
      ScanFirstHangUp(fds, evs[1..], remain, next, i - 1);
    }
  }

  /** The batch reported the descriptor with EPOLLERR or EPOLLHUP. */
  predicate ReportsHangUp(evs: seq<Event>, fd: int) {
    exists i :: 0 <= i < |evs| && evs[i].fd == fd && (evs[i].err || evs[i].hup)
  }

  lemma ReportsTail(evs: seq<Event>, fd: int)
    requires evs != [] && ReportsHangUp(evs[1..], fd)
    ensures ReportsHangUp(evs, fd)
  {
    var i :| 0 <= i < |evs[1..]| && evs[1..][i].fd == fd && (evs[1..][i].err || evs[1..][i].hup);
    assert evs[i + 1].fd == fd && (evs[i + 1].err || evs[i + 1].hup);
  }

  lemma {:induction false} ScanDeadReported(fds: seq<int>, evs: seq<Event>, remain: int, pick: Option<nat>, fd: int)
    requires fd in Scan(fds, evs, remain, pick).dead
    ensures fd in fds && ReportsHangUp(evs, fd)
    decreases |evs|
  {
    var e := evs[0];
    var i := LastWith(fds, e.fd);
    if i.None? {
      ScanDeadReported(fds, evs[1..], remain, pick, fd);
      ReportsTail(evs, fd);
    } else if !(Hung(e) && e.fd == fd) {
      var left := if Hung(e) then remain - 1 else remain;
      ScanDeadReported(fds, evs[1..], left, if e.readable && pick.None? then i else pick, fd);
      ReportsTail(evs, fd);
    }
  }

  /** In every batch at least the first of the sockets with EPOLLERR or EPOLLHUP is taken out, and a
      descriptor without either in any batch is not. */
  ghost predicate TakenOut(fds: seq<int>, seen: seq<seq<Event>>, dead: seq<int>) {
    && (forall j, i: nat :: 0 <= j < |seen| && FirstHangUp(fds, seen[j], i) ==> seen[j][i].fd in dead)
    && (forall fd :: fd in dead ==> fd in fds && exists j :: 0 <= j < |seen| && ReportsHangUp(seen[j], fd))
  }

  lemma TakenOutFirst(fds: seq<int>, evs: seq<Event>, remain: int, pick: Option<nat>)
    ensures TakenOut(fds, [evs], Scan(fds, evs, remain, pick).dead)
  {
    hide FirstHangUp, ReportsHangUp;
    var dead := Scan(fds, evs, remain, pick).dead;
    forall i: nat | FirstHangUp(fds, evs, i) ensures InRange(evs, i) && evs[i].fd in dead {
      FirstIsInRange(fds, evs, i);
      ScanFirstHangUp(fds, evs, remain, pick, i);
    }
    forall fd | fd in dead ensures fd in fds && exists j :: 0 <= j < 1 && ReportsHangUp([evs][j], fd) {
      ScanDeadReported(fds, evs, remain, pick, fd);
      assert ReportsHangUp([evs][0], fd);
    }
  }

  predicate InRange(evs: seq<Event>, i: nat) {
    i < |evs|
  }

  lemma FirstIsInRange(fds: seq<int>, evs: seq<Event>, i: nat)
    requires FirstHangUp(fds, evs, i)
    ensures InRange(evs, i)
  {
  }

  lemma JoinTakenOut(fds: seq<int>, evs: seq<Event>, dead: seq<int>, q: Polled)
    requires TakenOut(fds, [evs], dead) && TakenOut(fds, q.seen, q.dead)
    ensures TakenOut(fds, [evs] + q.seen, dead + q.dead)
  {
    hide FirstHangUp, ReportsHangUp;
    var seen: seq<seq<Event>>, gone: seq<int> := [evs] + q.seen, dead + q.dead;
    forall fd | fd in gone ensures fd in fds && exists j :: 0 <= j < |seen| && ReportsHangUp(seen[j], fd) {
      if fd in dead {
        assert ReportsHangUp([evs][0], fd);
        assert ReportsHangUp(seen[0], fd);
      } else {
        var j :| 0 <= j < |q.seen| && ReportsHangUp(q.seen[j], fd);
        assert ReportsHangUp(seen[j + 1], fd);
      }
    }
    forall j, i: nat | 0 <= j < |seen| && FirstHangUp(fds, seen[j], i)
      ensures InRange(seen[j], i) && seen[j][i].fd in gone
    {
      FirstIsInRange(fds, seen[j], i);
      if j > 0 {
        assert seen[j] == q.seen[j - 1];
      } else {
        assert seen[0] == [evs][0];
      }
    }
  }

  /** What a call takes out of the epoll set, and so marks invalid, in terms of the reported events. */
  lemma {:induction false} TakenOutExactly(fds: seq<int>, kernel: Kernel, k: nat, reg: set<int>,
        remain: int, pick: Option<nat>)
    ensures var p := Poll(fds, kernel, k, reg, remain, pick);
            TakenOut(fds, p.seen, p.dead)
    decreases remain
  {
    hide TakenOut;
    if kernel(k, reg).Events? {
      var evs := kernel(k, reg).evs;
      var b := Scan(fds, evs, remain, pick);
      TakenOutFirst(fds, evs, remain, pick);
      if b.retry {
        var rest := reg - ToSet(b.dead);
        TakenOutExactly(fds, kernel, k + 1, rest, b.remain, b.pick);
        JoinTakenOut(fds, evs, b.dead, Poll(fds, kernel, k + 1, rest, b.remain, b.pick));
      }
    } else {
      NothingTakenOut(fds);
    }
  }

  lemma NothingTakenOut(fds: seq<int>)
    ensures TakenOut(fds, [], [])
  {
  }

  /** The n-th wait, on some of the descriptors, is answered so. */
  ghost predicate Answered(kernel: Kernel, n: nat, reg: set<int>, w: Wait) {
    exists r: set<int> :: r <= reg && kernel(n, r) == w
  }

  lemma AnsweredWider(kernel: Kernel, n: nat, rest: set<int>, reg: set<int>, w: Wait)
    requires rest <= reg && Answered(kernel, n, rest, w)
    ensures Answered(kernel, n, reg, w)
  {
  }

  lemma AnsweredNow(kernel: Kernel, n: nat, reg: set<int>)
    ensures Answered(kernel, n, reg, kernel(n, reg))
  {
  }

  /** Every batch is what one wait of the call reported, in order; a failed call ends with a wait that
      fails, and there are no other waits. */
  lemma {:induction false} SeenFromKernel(fds: seq<int>, kernel: Kernel, k: nat, reg: set<int>,
        remain: int, pick: Option<nat>)
    ensures var p := Poll(fds, kernel, k, reg, remain, pick);
            && (forall j :: 0 <= j < |p.seen| ==> Answered(kernel, k + j, reg, Events(p.seen[j])))
            && Waits(p) >= |p.seen|
            && (if p.failed then Answered(kernel, k + Waits(p) - 1, reg, Wait.WaitFails) else Waits(p) == |p.seen|)
    decreases remain
  {
    hide Answered;
    AnsweredNow(kernel, k, reg);
    var p := Poll(fds, kernel, k, reg, remain, pick);
    if kernel(k, reg).WaitFails? {
      assert k + Waits(p) - 1 == k;
    } else {
      var b := Scan(fds, kernel(k, reg).evs, remain, pick);
      assert p.seen[0] == kernel(k, reg).evs && k + 0 == k;
      if b.retry {
        var rest := reg - ToSet(b.dead);
        SeenFromKernel(fds, kernel, k + 1, rest, b.remain, b.pick);
        var q := Poll(fds, kernel, k + 1, rest, b.remain, b.pick);
        forall j | 0 <= j < |p.seen| ensures Answered(kernel, k + j, reg, Events(p.seen[j])) {
          if j > 0 {
            assert k + j == k + 1 + (j - 1) && p.seen[j] == q.seen[j - 1];
            AnsweredWider(kernel, k + j, rest, reg, Events(p.seen[j]));
          }
        }
        if p.failed {
          assert k + Waits(p) - 1 == k + 1 + Waits(q) - 1;
          AnsweredWider(kernel, k + Waits(p) - 1, rest, reg, Wait.WaitFails);
        }
      }
    }
  }

  /** Reading fails before a socket is chosen exactly when the epoll set cannot be created, a descriptor
      comes twice or is refused, or a wait fails; else it gives the chosen socket and what it delivers. */
  lemma ReadOutcomeExactly(fds: seq<int>, os: Os)
    ensures var (r, p) := (ReadOutcome(fds, os), PollAll(fds, os.kernel));
            && (r.WaitFails? <==>
                || !os.created
                || (exists i, j :: 0 <= i < j < |fds| && fds[i] == fds[j])
                || (exists i :: 0 <= i < |fds| && !os.accepts(fds[i]))
                || p.failed)
            && (r.ReadFrom? ==>
                  && r.index < |fds| && r.ok == os.delivers(r.index)
                  && SeenReadable(p.seen, fds[r.index]))
  {
    if ReadOutcome(fds, os).ReadFrom? {
      PickIsReadable(fds, os.kernel, 0, ToSet(fds), |fds|, None);
    }
  }

  predicate BatchHung(evs: seq<Event>, fds: seq<int>) {
    exists i :: 0 <= i < |evs| && evs[i].fd in fds && (evs[i].err || evs[i].hup)
  }

  lemma {:induction false} ScanSeesHangUps(fds: seq<int>, evs: seq<Event>, remain: int, pick: Option<nat>)
    ensures var b := Scan(fds, evs, remain, pick);
            b.remain > 0 ==> (b.retry <==> BatchHung(evs, fds))
    decreases |evs|
  {
    if evs != [] {
      var e := evs[0];
      var i := LastWith(fds, e.fd);
      assert BatchHung(evs, fds) <==> (e.fd in fds && (e.err || e.hup)) || BatchHung(evs[1..], fds) by {
        HungCons(evs, fds);
      }
      if i.Some? {
        var left := if Hung(e) then remain - 1 else remain;
        ScanSeesHangUps(fds, evs[1..], left, if e.readable && pick.None? then i else pick);
      } else {
        ScanSeesHangUps(fds, evs[1..], remain, pick);
      }
    }
  }

  lemma HungCons(evs: seq<Event>, fds: seq<int>)
    requires evs != []
    ensures BatchHung(evs, fds) <==> (evs[0].fd in fds && (evs[0].err || evs[0].hup)) || BatchHung(evs[1..], fds)
  {
    if BatchHung(evs[1..], fds) {
      var i :| 0 <= i < |evs[1..]| && evs[1..][i].fd in fds && (evs[1..][i].err || evs[1..][i].hup);
      assert evs[i + 1].fd in fds && (evs[i + 1].err || evs[i + 1].hup);
    }
    if BatchHung(evs, fds) {
      var i :| 0 <= i < |evs| && evs[i].fd in fds && (evs[i].err || evs[i].hup);
      if i > 0 {
        assert evs[1..][i - 1].fd in fds && (evs[1..][i - 1].err || evs[1..][i - 1].hup);
      }
    }
  }

  /** While sockets are left, a call goes back to waiting after every batch with a hang-up, and after
      no other: exactly the batches before the last one report one. */
  lemma {:induction false} RetriesExactlyOnHangUp(fds: seq<int>, kernel: Kernel, k: nat,
        reg: set<int>, remain: int, pick: Option<nat>)
    ensures var p := Poll(fds, kernel, k, reg, remain, pick);
            !p.failed && p.remain > 0 ==>
              |p.seen| > 0 && forall j :: 0 <= j < |p.seen| ==> (BatchHung(p.seen[j], fds) <==> j < |p.seen| - 1)
    decreases remain
  {
    if kernel(k, reg).Events? {
      var evs := kernel(k, reg).evs;
      var b := Scan(fds, evs, remain, pick);
      ScanSeesHangUps(fds, evs, remain, pick);
      if b.retry {
        RetriesExactlyOnHangUp(fds, kernel, k + 1, reg - ToSet(b.dead), b.remain, b.pick);
      }
    }
  }

  // ---------------------------------------------------------------- calls that give no socket

  /** Only readability is asked for, and hang-ups and errors are always reported: each event is one. */
  ghost predicate Meaningful(kernel: Kernel) {
    forall k: nat, reg: set<int> {:trigger kernel(k, reg)} :: kernel(k, reg).Events? ==>
      forall i :: 0 <= i < |kernel(k, reg).evs| ==>
        var e := kernel(k, reg).evs[i]; e.err || e.hup || e.readable
  }

  /** A wait without a timeout ends with an event. */
  ghost predicate Untimed(kernel: Kernel) {
    forall k: nat, reg: set<int> {:trigger kernel(k, reg)} ::
      kernel(k, reg).Events? && reg != {} ==> kernel(k, reg).evs != []
  }

  predicate HangUpFirst(evs: seq<Event>) {
    evs != [] && (evs[0].err || evs[0].hup)
  }

  /** Every wait but the last began with a hang-up, and the last one timed out, or reported that the
      last of n sockets hung up without data. */
  predicate GivenUp(seen: seq<seq<Event>>, n: nat) {
    && |seen| > 0
    && (forall j :: 0 <= j < |seen| - 1 ==> HangUpFirst(seen[j]))
    && var last := seen[|seen| - 1];
       last == [] || (|seen| == n && HangUpFirst(last) && !last[0].readable)
  }

  lemma GivenUpCons(evs: seq<Event>, seen: seq<seq<Event>>, n: nat)
    requires seen != []
    ensures GivenUp([evs] + seen, n + 1) <==> HangUpFirst(evs) && GivenUp(seen, n)
  {
    var all := [evs] + seen;
    assert all[|all| - 1] == seen[|seen| - 1];
    if GivenUp(all, n + 1) {
      assert HangUpFirst(all[0]);
      forall j | 0 <= j < |seen| - 1 ensures HangUpFirst(seen[j]) {
        assert all[j + 1] == seen[j];
      }
    }
  }

  lemma {:induction false} SeenWhenDone(fds: seq<int>, kernel: Kernel, k: nat, reg: set<int>,
        remain: int, pick: Option<nat>)
    ensures var p := Poll(fds, kernel, k, reg, remain, pick);
            !p.failed ==> p.seen != [] && kernel(k, reg).Events? && p.seen[0] == kernel(k, reg).evs
    decreases remain
  {
    if kernel(k, reg).Events? {
      var b := Scan(fds, kernel(k, reg).evs, remain, pick);
      if b.retry {
        SeenWhenDone(fds, kernel, k + 1, reg - ToSet(b.dead), b.remain, b.pick);
      }
    }
  }

  /** A first event that is no hang-up is data, and some socket is read. */
  lemma DataFirst(fds: seq<int>, kernel: Kernel, k: nat, reg: set<int>, remain: int)
    requires kernel(k, reg).Events? && kernel(k, reg).evs != []
    requires var e := kernel(k, reg).evs[0]; !Hung(e) && e.readable && e.fd in fds
    ensures var p := Poll(fds, kernel, k, reg, remain, None);
            !p.failed ==> p.pick.Some? && forall n :: !GivenUp(p.seen, n)
  {
    var evs := kernel(k, reg).evs;
    var b := Scan(fds, evs, remain, None);
    assert b.pick.Some?;
    SeenWhenDone(fds, kernel, k, reg, remain, None);
    if b.retry {
      KeepsPick(fds, kernel, k + 1, reg - ToSet(b.dead), b.remain, b.pick);
    }
    var p := Poll(fds, kernel, k, reg, remain, None);
    if !p.failed {
      forall n ensures !GivenUp(p.seen, n) {
        assert p.seen[0] == evs;
      }
    }
  }

  /** A first event that is a hang-up sends the call back to waiting for the others. */
  lemma HangUpRetries(fds: seq<int>, kernel: Kernel, k: nat, reg: set<int>)
    requires kernel(k, reg).Events? && HangUpFirst(kernel(k, reg).evs) && |reg| > 1
    requires var fd := kernel(k, reg).evs[0].fd; fd in reg && fd in fds
    ensures var evs := kernel(k, reg).evs;
            var rest := reg - {evs[0].fd};
            && |rest| == |reg| - 1
            && Poll(fds, kernel, k, reg, |reg|, None)
               == After(evs, [evs[0].fd], Poll(fds, kernel, k + 1, rest, |rest|, None))
  {
    var evs := kernel(k, reg).evs;
    var fd := evs[0].fd;
    assert Scan(fds, evs, |reg|, None) == Scanned(|reg| - 1, None, [fd], true);
    assert ToSet([fd]) == {fd};
  }

  /** With one socket left its hang-up ends the call, with the socket if there is data and else
      without one. */
  lemma LastHangUp(fds: seq<int>, kernel: Kernel, k: nat, reg: set<int>)
    requires Faithful(kernel) && |reg| == 1
    requires kernel(k, reg).Events? && HangUpFirst(kernel(k, reg).evs) && kernel(k, reg).evs[0].fd in fds
    ensures var (evs, p) := (kernel(k, reg).evs, Poll(fds, kernel, k, reg, 1, None));
            !p.failed && p.seen == [evs] && (p.pick.None? <==> !evs[0].readable)
  {
    var evs := kernel(k, reg).evs;
    if |evs| > 1 {
      assert {evs[0].fd, evs[1].fd} <= reg;
      SubsetSize({evs[0].fd, evs[1].fd}, reg);
      assert false;
    }
    ScanOne(fds, evs[0]);
    assert evs == [evs[0]];
  }

  lemma ScanOne(fds: seq<int>, e: Event)
    requires e.fd in fds && Hung(e)
    ensures var b := Scan(fds, [e], 1, None);
            b == Scanned(0, if e.readable then LastWith(fds, e.fd) else None, [e.fd], false)
  {
    var pick := if e.readable then LastWith(fds, e.fd) else None;
    assert [e][1..] == [];
    assert Scan(fds, [], 0, pick) == Scanned(0, pick, [], false);
  }

  lemma SubsetSize(a: set<int>, b: set<int>)
    requires a <= b
    ensures |a| <= |b|
  {
    assert b == a + (b - a);
  }

  /** A call gives no socket and no error exactly when it timed out after nothing but hang-ups, or
      when all its sockets hung up one by one, the last one without data. */
  lemma {:induction false} NoSocketExactly(fds: seq<int>, kernel: Kernel, k: nat, reg: set<int>)
    requires Faithful(kernel) && Meaningful(kernel) && reg <= ToSet(fds)
    ensures var p := Poll(fds, kernel, k, reg, |reg|, None);
            !p.failed ==> (p.pick.None? <==> GivenUp(p.seen, |reg|))
    decreases |reg|
  {
    if kernel(k, reg).Events? {
      var evs := kernel(k, reg).evs;
      if evs == [] {
        assert Scan(fds, evs, |reg|, None) == Scanned(|reg|, None, [], false);
      } else {
        assert evs[0].fd in reg && evs[0].fd in fds;
        if !Hung(evs[0]) {
          DataFirst(fds, kernel, k, reg, |reg|);
        } else if |reg| == 1 {
          LastHangUp(fds, kernel, k, reg);
        } else {
          var rest := reg - {evs[0].fd};
          SubsetSize({evs[0].fd}, reg);
          HangUpRetries(fds, kernel, k, reg);
          NoSocketExactly(fds, kernel, k + 1, rest);
          var q := Poll(fds, kernel, k + 1, rest, |rest|, None);
          SeenWhenDone(fds, kernel, k + 1, rest, |rest|, None);
          if !q.failed {
            GivenUpCons(evs, q.seen, |rest|);
          }
        }
      }
    }
  }

  /** All n sockets hung up, each first in its wait, and the last one without data. */
  predicate AllHungUp(seen: seq<seq<Event>>, n: nat) {
    && |seen| == n > 0
    && (forall j :: 0 <= j < n ==> HangUpFirst(seen[j]))
    && !seen[n - 1][0].readable
  }

  predicate NoneEmpty(seen: seq<seq<Event>>) {
    forall j :: 0 <= j < |seen| ==> |seen[j]| > 0
  }

  /** Every wait is for at least one socket. */
  lemma {:induction false} NoEmptyBatch(fds: seq<int>, kernel: Kernel, k: nat, reg: set<int>, pick: Option<nat>)
    requires Faithful(kernel) && Untimed(kernel) && reg != {}
    ensures NoneEmpty(Poll(fds, kernel, k, reg, |reg|, pick).seen)
    decreases |reg|
  {
    if kernel(k, reg).Events? {
      var evs := kernel(k, reg).evs;
      var b := Scan(fds, evs, |reg|, pick);
      ScanTakesOut(fds, evs, |reg|, pick, reg);
      DistinctSize(b.dead);
      assert ToSet(b.dead) <= reg;
      assert |reg - ToSet(b.dead)| == |reg| - |b.dead|;
      if b.retry {
        var rest := reg - ToSet(b.dead);
        NoEmptyBatch(fds, kernel, k + 1, rest, b.pick);
        var q := Poll(fds, kernel, k + 1, rest, |rest|, b.pick);
        assert NoneEmpty(q.seen);
        assert NoneEmpty([evs] + q.seen);
        assert Poll(fds, kernel, k, reg, |reg|, pick) == After(evs, b.dead, q);
      }
    }
  }

  /** Without a timeout only the second case is left: index -1 without an error then means that every
      socket hung up, or that there was none. */
  lemma UntimedNoSocketExactly(fds: seq<int>, os: Os)
    requires Faithful(os.kernel) && Meaningful(os.kernel) && Untimed(os.kernel)
    ensures ReadOutcome(fds, os).NoSocket? <==>
              var p := PollAll(fds, os.kernel);
              Ready(os, fds) && !p.failed && (fds == [] || AllHungUp(p.seen, |fds|))
  {
    if Ready(os, fds) {
      DistinctSize(fds);
      NoSocketExactly(fds, os.kernel, 0, ToSet(fds));
      if fds == [] {
        PickIsReadable(fds, os.kernel, 0, ToSet(fds), 0, None);
      } else {
        assert fds[0] in ToSet(fds);
        NoEmptyBatch(fds, os.kernel, 0, ToSet(fds), None);
      }
    }
  }

  /** Each wait reports that one of the sockets hung up without data. */
  ghost predicate HangsUp(kernel: Kernel) {
    forall k: nat, reg: set<int> {:trigger kernel(k, reg)} :: reg != {} ==>
      && kernel(k, reg).Events? && |kernel(k, reg).evs| == 1
      && var e := kernel(k, reg).evs[0]; e.fd in reg && e.hup && !e.readable
  }

  lemma OneHangUp(fds: seq<int>, kernel: Kernel, k: nat, e: Event, reg: set<int>)
    requires kernel(k, reg) == Events([e]) && e.fd in fds && Hung(e) && !e.readable
    ensures Poll(fds, kernel, k, reg, 1, None) == Polled(false, None, [e.fd], 0, [[e]])
  {
    ScanOne(fds, e);
  }

  /** The call ends without a socket after taking out all of reg. */
  predicate EndsWithout(p: Polled, reg: set<int>) {
    !p.failed && p.pick.None? && p.remain == 0 && ToSet(p.dead) == reg
  }

  lemma OneMoreHangUp(fds: seq<int>, kernel: Kernel, k: nat, e: Event, reg: set<int>)
    requires kernel(k, reg) == Events([e]) && Hung(e) && e.fd in reg && e.fd in fds && |reg| > 1
    requires var rest := reg - {e.fd}; EndsWithout(Poll(fds, kernel, k + 1, rest, |rest|, None), rest)
    ensures EndsWithout(Poll(fds, kernel, k, reg, |reg|, None), reg)
  {
    HangUpRetries(fds, kernel, k, reg);
    var rest := reg - {e.fd};
    var q := Poll(fds, kernel, k + 1, rest, |rest|, None);
    assert ToSet([e.fd] + q.dead) == {e.fd} + ToSet(q.dead) == reg;
  }

  /** Any number of sockets can end like that. */
  lemma {:induction false} HangUpsGiveNoSocket(fds: seq<int>, kernel: Kernel, k: nat, reg: set<int>)
    requires HangsUp(kernel) && reg != {} && reg <= ToSet(fds)
    ensures EndsWithout(Poll(fds, kernel, k, reg, |reg|, None), reg)
    decreases |reg|
  {
    hide EndsWithout;
    var e := TheHangUp(kernel, k, reg);
    SubsetSize({e.fd}, reg);
    if |reg| == 1 {
      LastEndsWithout(fds, kernel, k, e, reg);
    } else {
      HangUpsGiveNoSocket(fds, kernel, k + 1, reg - {e.fd});
      OneMoreHangUp(fds, kernel, k, e, reg);
    }
  }

  lemma TheHangUp(kernel: Kernel, k: nat, reg: set<int>) returns (e: Event)
    requires HangsUp(kernel) && reg != {}
    ensures kernel(k, reg) == Events([e]) && e.fd in reg && Hung(e) && !e.readable
  {
    e := kernel(k, reg).evs[0];
  }

  lemma LastEndsWithout(fds: seq<int>, kernel: Kernel, k: nat, e: Event, reg: set<int>)
    requires kernel(k, reg) == Events([e]) && Hung(e) && !e.readable && e.fd in reg && e.fd in fds && |reg| == 1
    ensures EndsWithout(Poll(fds, kernel, k, reg, |reg|, None), reg)
  {
    OneHangUp(fds, kernel, k, e, reg);
    SubsetSize({e.fd}, reg);
    assert |reg - {e.fd}| == 0;
    assert reg == {e.fd} == ToSet([e.fd]);
  }
}
