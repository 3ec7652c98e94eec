/** Channels and the two pollers that keep them registered. */
module Pollers {
  type Fd = int

  /** The interest bits of a channel: the read mask and the write mask are disjoint and are only
      ever set or cleared as a whole, so each is one flag. */
  datatype Interest = Interest(reading: bool, writing: bool)

  const NO_INTEREST := Interest(false, false)

  class Channel {
    const fd: Fd
    var events: Interest
    var added: bool

    constructor (fd: Fd)
      ensures this.fd == fd && events == NO_INTEREST && !added
    {
      this.fd := fd;
      events := NO_INTEREST;
      added := false;
    }
  }

  // ---------------------------------------------------------------- what a poller promises

  /** The table every poller keeps: the interest of each registered descriptor. */
  type Table = map<Fd, Interest>

  function Updated(t: Table, fd: Fd, events: Interest): Table {
    if events == NO_INTEREST then t - {fd} else t[fd := events]
  }

  function Removed(t: Table, fd: Fd): Table {
    t - {fd}
  }

  // ---------------------------------------------------------------- parallel arrays and an index

  datatype PollFd = PollFd(fd: Fd, events: Interest)

  /** Each entry is registered with some interest and the index map is a bijection from the
      descriptors onto their positions. */
  ghost predicate Indexed(pollfds: seq<PollFd>, idx: map<Fd, nat>) {
    && (forall i :: 0 <= i < |pollfds| ==>
          pollfds[i].events != NO_INTEREST && pollfds[i].fd in idx && idx[pollfds[i].fd] == i)
    && (forall fd :: fd in idx ==> idx[fd] < |pollfds| && pollfds[idx[fd]].fd == fd)
  }

  ghost function TableOf(pollfds: seq<PollFd>, idx: map<Fd, nat>): (t: Table)
    requires Indexed(pollfds, idx)
    ensures t.Keys == idx.Keys
    ensures forall i :: 0 <= i < |pollfds| ==> t[pollfds[i].fd] == pollfds[i].events
  {
    map fd | fd in idx :: pollfds[idx[fd]].events
  }

  /** The entries after the one at `at` was swapped with the last and the last popped. */
  function SwapPop<T>(s: seq<T>, at: nat): seq<T>
    requires at < |s|
  {
    s[at := s[|s| - 1]][..|s| - 1]
  }

  /** Swap-and-pop with the index repaired removes one descriptor and keeps all others. */
  lemma SwapPopTable(pollfds: seq<PollFd>, idx: map<Fd, nat>, fd: Fd)
    requires Indexed(pollfds, idx) && fd in idx
    ensures var after := SwapPop(pollfds, idx[fd]);
      var last := pollfds[|pollfds| - 1].fd;
      var idx' := idx[last := idx[fd]] - {fd};
      Indexed(after, idx') && TableOf(after, idx') == Removed(TableOf(pollfds, idx), fd)
  {
    var at := idx[fd];
    var after := SwapPop(pollfds, at);
    var last := pollfds[|pollfds| - 1].fd;
    var idx' := idx[last := at] - {fd};
    forall f | f in idx'
      ensures idx'[f] < |after| && after[idx'[f]].fd == f
        && TableOf(pollfds, idx)[f] == after[idx'[f]].events
    {
      if f != last {
        assert idx[f] != at && idx[f] != idx[last];
      }
    }
    assert Indexed(after, idx');
    assert TableOf(after, idx').Keys == idx.Keys - {fd};
  }

  /** A second array that is swapped and popped alongside stays aligned. */
  lemma SwapPopAligned<T>(pollfds: seq<PollFd>, idx: map<Fd, nat>, fd: Fd, xs: seq<T>)
    requires Indexed(pollfds, idx) && fd in idx && |xs| == |pollfds|
    ensures var last := pollfds[|pollfds| - 1].fd;
      var idx' := idx[last := idx[fd]] - {fd};
      forall f :: f in idx' ==> idx'[f] < |xs| - 1 && SwapPop(xs, idx[fd])[idx'[f]] == xs[idx[f]]
  {
    var last := pollfds[|pollfds| - 1].fd;
    var idx' := idx[last := idx[fd]] - {fd};
    forall f | f in idx'
      ensures idx'[f] < |xs| - 1 && SwapPop(xs, idx[fd])[idx'[f]] == xs[idx[f]]
    {
      if f != last {
        assert idx[f] != idx[fd] && idx[f] != idx[last];
      }
    }
  }

  lemma InRange(pollfds: seq<PollFd>, idx: map<Fd, nat>, fd: Fd)
    requires Indexed(pollfds, idx) && fd in idx
    ensures idx[fd] < |pollfds| && pollfds[idx[fd]].fd == fd
    ensures var last := pollfds[|pollfds| - 1].fd; last in idx && idx[last] == |pollfds| - 1
  {}

  lemma AllInRange(pollfds: seq<PollFd>, idx: map<Fd, nat>)
    requires Indexed(pollfds, idx)
    ensures forall f :: f in idx ==> idx[f] < |pollfds| && pollfds[idx[f]].fd == f
  {}

  lemma ReplaceTable(pollfds: seq<PollFd>, idx: map<Fd, nat>, pfd: PollFd)
    requires Indexed(pollfds, idx) && pfd.fd in idx && pfd.events != NO_INTEREST
    ensures var after := pollfds[idx[pfd.fd] := pfd];
      Indexed(after, idx) && TableOf(after, idx) == TableOf(pollfds, idx)[pfd.fd := pfd.events]
  {
    var after := pollfds[idx[pfd.fd] := pfd];
    forall f | f in idx
      ensures after[idx[f]].events == if f == pfd.fd then pfd.events else pollfds[idx[f]].events
    {}
  }

  lemma PushTable(pollfds: seq<PollFd>, idx: map<Fd, nat>, pfd: PollFd)
    requires Indexed(pollfds, idx) && pfd.fd !in idx && pfd.events != NO_INTEREST
    ensures var idx' := idx[pfd.fd := |pollfds|];
      Indexed(pollfds + [pfd], idx')
      && TableOf(pollfds + [pfd], idx') == TableOf(pollfds, idx)[pfd.fd := pfd.events]
  {
    var idx' := idx[pfd.fd := |pollfds|];
    forall f | f in idx
      ensures (pollfds + [pfd])[idx'[f]] == if f == pfd.fd then pfd else pollfds[idx[f]]
    {}
    assert TableOf(pollfds + [pfd], idx').Keys == idx.Keys + {pfd.fd};
  }

  class WSPollPoller {
    var pollfds: seq<PollFd>
    var channels: seq<Channel>
    var fdToIdx: map<Fd, nat>

    ghost predicate Valid()
      reads this
    {
      && Indexed(pollfds, fdToIdx)
      && |channels| == |pollfds|
      && forall i :: 0 <= i < |pollfds| ==> channels[i].fd == pollfds[i].fd
    }

    ghost function Interests(): (t: Table)
      requires Valid()
      reads this
    {
      TableOf(pollfds, fdToIdx)
    }

    /** `c` is the one channel of its descriptor and its flag says whether it is registered. */
    ghost predicate Owns(c: Channel)
      requires Valid()
      reads this, c
    {
      && (c.added <==> c.fd in fdToIdx)
      && (c.fd in fdToIdx ==> channels[fdToIdx[c.fd]] == c)
    }

    constructor ()
      ensures Valid() && Interests() == map[]
    {
      pollfds, channels, fdToIdx := [], [], map[];
    }

    method UpdateChannel(channel: Channel)
      requires Valid()
      modifies this, channel`added
      ensures Valid()
      ensures Interests() == Updated(old(Interests()), channel.fd, channel.events)
      ensures old(Owns(channel)) ==> Owns(channel) && channel.added == (channel.events != NO_INTEREST)
      ensures forall c: Channel | old(allocated(c)) && c.fd != channel.fd && old(Owns(c)) :: Owns(c)
    {
      var fd := channel.fd;
      if channel.events == NO_INTEREST {
        if fd in fdToIdx {
          RemoveChannel(channel);
        }
        return;
      }
      hide Indexed, TableOf;
      AllInRange(pollfds, fdToIdx);
      var pfd := PollFd(fd, channel.events);
      if fd !in fdToIdx {
        Enroll(pfd, channel);
      } else {
        ReplaceTable(pollfds, fdToIdx, pfd);
        pollfds := pollfds[fdToIdx[fd] := pfd];
      }
    }

    /** A new entry goes to the end of both arrays. */
    method Enroll(pfd: PollFd, channel: Channel)
      requires Valid() && pfd.fd == channel.fd && channel.fd !in fdToIdx && pfd.events != NO_INTEREST
      modifies this, channel`added
      ensures Valid() && Interests() == old(Interests())[pfd.fd := pfd.events]
      ensures channel.added && channels == old(channels) + [channel]
      ensures fdToIdx == old(fdToIdx)[channel.fd := |old(channels)|]
    {
      hide Indexed, TableOf;
      PushTable(pollfds, fdToIdx, pfd);
      pollfds := pollfds + [pfd];
      channels := channels + [channel];
      fdToIdx := fdToIdx[channel.fd := |pollfds| - 1];
      channel.added := true;
    }

    method RemoveChannel(channel: Channel)
      requires Valid()
      modifies this, channel`added
      ensures Valid()
      ensures Interests() == Removed(old(Interests()), channel.fd)
      ensures old(Owns(channel)) ==> Owns(channel) && !channel.added
      ensures forall c: Channel | old(allocated(c)) && c.fd != channel.fd && old(Owns(c)) :: Owns(c)
    {
      var fd := channel.fd;
      if fd !in fdToIdx {
        assert Interests() == old(Interests()) - {fd};
        return;
      }
      hide Indexed, TableOf;
      SwapPopTable(pollfds, fdToIdx, fd);
      SwapPopAligned(pollfds, fdToIdx, fd, channels);
      InRange(pollfds, fdToIdx, fd);
      var lastFd := pollfds[|pollfds| - 1].fd;
      SwapPopBoth(fdToIdx[fd], lastFd);
      fdToIdx := fdToIdx - {fd};
      channel.added := false;
    }

    /** Swaps the entry at `idx` with the last one in both arrays, repairs the index of the one
        that moved, and pops the last. */
    method SwapPopBoth(idx: nat, lastFd: Fd)
      requires idx < |pollfds| == |channels| && lastFd == pollfds[|pollfds| - 1].fd
      requires lastFd in fdToIdx && fdToIdx[lastFd] == |pollfds| - 1
      modifies this
      ensures pollfds == SwapPop(old(pollfds), idx) && channels == SwapPop(old(channels), idx)
      ensures fdToIdx == old(fdToIdx)[lastFd := idx]
    {
      var lastIdx := |pollfds| - 1;
      if idx != lastIdx {
        pollfds := pollfds[idx := pollfds[lastIdx]][lastIdx := pollfds[idx]];
        channels := channels[idx := channels[lastIdx]][lastIdx := channels[idx]];
        fdToIdx := fdToIdx[pollfds[idx].fd := idx];
      }
      pollfds := pollfds[..|pollfds| - 1];
      channels := channels[..|channels| - 1];
    }

    /** The index map is one-to-one onto 0..n-1 where n is the length of either array. */
    lemma IndexBijection()
      requires Valid()
      ensures forall i: nat :: i in fdToIdx.Values <==> i < |pollfds|
      ensures |fdToIdx| == |pollfds| == |channels|
      ensures forall f, g :: f in fdToIdx && g in fdToIdx && fdToIdx[f] == fdToIdx[g] ==> f == g
    {
      forall i: nat | i < |pollfds|
        ensures i in fdToIdx.Values
      {
        assert fdToIdx[pollfds[i].fd] == i;
      }
      CountPositions(pollfds);
      var fds := set i | 0 <= i < |pollfds| :: pollfds[i].fd;
      assert forall fd :: fd in fdToIdx ==> fd == pollfds[fdToIdx[fd]].fd && fd in fds;
      assert fdToIdx.Keys == fds;
    }
  }

  lemma {:induction false} CountPositions(s: seq<PollFd>)
    requires forall i, j :: 0 <= i < j < |s| ==> s[i].fd != s[j].fd
    ensures |set i | 0 <= i < |s| :: s[i].fd| == |s|
  {
    var fds := set i | 0 <= i < |s| :: s[i].fd;
    if s == [] {
      assert fds == {};
    } else {
      var n := |s| - 1;
      var before := s[..n];
      CountPositions(before);
      assert forall i :: 0 <= i < n ==> before[i] == s[i];
      assert fds == (set i | 0 <= i < n :: before[i].fd) + {s[n].fd};
    }
  }

  // ---------------------------------------------------------------- a map and the kernel's set

  datatype CtlOp = CtlAdd | CtlMod | CtlDel

  class EpollPoller {
    var fdToChannel: map<Fd, Channel>
    var kernel: Table

    ghost predicate Valid()
      reads this
    {
      && kernel.Keys == fdToChannel.Keys
      && (forall fd :: fd in fdToChannel ==> fdToChannel[fd].fd == fd)
      && (forall fd :: fd in kernel ==> kernel[fd] != NO_INTEREST)
    }

    ghost predicate Owns(c: Channel)
      reads this, c
    {
      && (c.added <==> c.fd in fdToChannel)
      && (c.fd in fdToChannel ==> fdToChannel[c.fd] == c)
    }

    ghost function Interests(): Table
      reads this
    {
      kernel
    }

    constructor ()
      ensures Valid() && Interests() == map[]
    {
      fdToChannel, kernel := map[], map[];
    }

    /** The kernel refuses to add what it has and to change or delete what it has not. */
    method UpdateEpoll(op: CtlOp, channel: Channel)
      modifies this`kernel
      ensures kernel ==
        if (op == CtlAdd) == (channel.fd in old(kernel)) then old(kernel)
        else if op == CtlDel then Removed(old(kernel), channel.fd)
        else old(kernel)[channel.fd := channel.events]
    {
      var known := channel.fd in kernel;
      match op
      case CtlAdd =>
        if !known { kernel := kernel[channel.fd := channel.events]; }
      case CtlMod =>
        if known { kernel := kernel[channel.fd := channel.events]; }
      case CtlDel =>
        if known { kernel := kernel - {channel.fd}; }
    }

    method UpdateChannel(channel: Channel)
      requires Valid()
      modifies this, channel`added
      ensures Valid()
      ensures Interests() == Updated(old(Interests()), channel.fd, channel.events)
      ensures old(Owns(channel)) ==> Owns(channel) && channel.added == (channel.events != NO_INTEREST)
      ensures forall c: Channel | old(allocated(c)) && c.fd != channel.fd && old(Owns(c)) :: Owns(c)
    {
      var fd := channel.fd;
      if channel.events == NO_INTEREST {
        if fd in fdToChannel {
          RemoveChannel(channel);
        }
        return;
      }
      if fd in fdToChannel {
        UpdateEpoll(CtlMod, channel);
      } else {
        fdToChannel := fdToChannel[fd := channel];
        UpdateEpoll(CtlAdd, channel);
        channel.added := true;
      }
    }

    method RemoveChannel(channel: Channel)
      requires Valid()
      modifies this, channel`added
      ensures Valid()
      ensures Interests() == Removed(old(Interests()), channel.fd)
      ensures old(Owns(channel)) ==> Owns(channel) && !channel.added
      ensures forall c: Channel | old(allocated(c)) && c.fd != channel.fd && old(Owns(c)) :: Owns(c)
    {
      var fd := channel.fd;
      if fd !in fdToChannel {
        return;
      }
      UpdateEpoll(CtlDel, channel);
      fdToChannel := fdToChannel - {fd};
      channel.added := false;
    }
  }

  // ---------------------------------------------------------------- the same table, whatever happens

  /** What a loop asks of its poller: a channel changed its interest, or is to be removed. */
  datatype PollOp = Change(fd: Fd, events: Interest) | Drop(fd: Fd)

  function RunTable(ops: seq<PollOp>): Table {
    if ops == [] then map[]
    else
      var t := RunTable(ops[..|ops| - 1]);
      match ops[|ops| - 1]
      case Change(fd, events) => Updated(t, fd, events)
      case Drop(fd) => Removed(t, fd)
  }

  ghost predicate OneEach(channels: map<Fd, Channel>, ops: seq<PollOp>) {
    && (forall fd :: fd in channels ==> channels[fd].fd == fd)
    && (forall op :: op in ops ==> op.fd in channels)
  }

  method DriveWSPoll(ops: seq<PollOp>, channels: map<Fd, Channel>) returns (ws: WSPollPoller)
    requires OneEach(channels, ops) && forall c :: c in channels.Values ==> !c.added
    modifies channels.Values
    ensures ws.Valid() && fresh(ws) && ws.Interests() == RunTable(ops)
    ensures forall fd :: fd in channels ==> ws.Owns(channels[fd])
  {
    assert forall fd :: fd in channels ==> channels[fd] in channels.Values && !channels[fd].added;
    ws := new WSPollPoller();
    for i := 0 to |ops|
      invariant ws.Valid() && fresh(ws) && ws.Interests() == RunTable(ops[..i])
      invariant forall fd :: fd in channels ==> ws.Owns(channels[fd])
    {
      assert ops[..i + 1][..i] == ops[..i];
      var op := ops[i];
      assert op in ops;
      var c := channels[op.fd];
      assert c in channels.Values;
      match op
      case Change(_, events) =>
        c.events := events;
        ws.UpdateChannel(c);
      case Drop(_) =>
        ws.RemoveChannel(c);
    }
    assert ops[..|ops|] == ops;
  }

  method DriveEpoll(ops: seq<PollOp>, channels: map<Fd, Channel>) returns (ep: EpollPoller)
    requires OneEach(channels, ops) && forall c :: c in channels.Values ==> !c.added
    modifies channels.Values
    ensures ep.Valid() && fresh(ep) && ep.Interests() == RunTable(ops)
    ensures forall fd :: fd in channels ==> ep.Owns(channels[fd])
  {
    assert forall fd :: fd in channels ==> channels[fd] in channels.Values && !channels[fd].added;
    ep := new EpollPoller();
    for i := 0 to |ops|
      invariant ep.Valid() && fresh(ep) && ep.Interests() == RunTable(ops[..i])
      invariant forall fd :: fd in channels ==> ep.Owns(channels[fd])
    {
      assert ops[..i + 1][..i] == ops[..i];
      var op := ops[i];
      assert op in ops;
      var c := channels[op.fd];
      assert c in channels.Values;
      match op
      case Change(_, events) =>
        c.events := events;
        ep.UpdateChannel(c);
      case Drop(_) =>
        ep.RemoveChannel(c);
    }
    assert ops[..|ops|] == ops;
  }

  /** Driven by the same operations, each with its own channels, both pollers end with the same
      table after every sequence, and each channel's flag says whether it is in it. */
  method Lockstep(ops: seq<PollOp>, left: map<Fd, Channel>, right: map<Fd, Channel>)
      returns (ws: WSPollPoller, ep: EpollPoller)
    requires OneEach(left, ops) && OneEach(right, ops) && left.Values !! right.Values
    requires forall c :: c in left.Values + right.Values ==> !c.added
    modifies left.Values, right.Values
    ensures ws.Valid() && ep.Valid()
    ensures ws.Interests() == ep.Interests() == RunTable(ops)
    ensures forall fd :: fd in left ==> left[fd].added == (fd in RunTable(ops))
    ensures forall fd :: fd in right ==> right[fd].added == (fd in RunTable(ops))
  {
    assert forall fd :: fd in left ==> left[fd] in left.Values;
    ws := DriveWSPoll(ops, left);
    ep := DriveEpoll(ops, right);
  }

  /** Operation `i` is the last one on `fd`. */
  predicate LastOn(ops: seq<PollOp>, fd: Fd, i: nat) {
    i < |ops| && ops[i].fd == fd && forall j :: i < j < |ops| ==> ops[j].fd != fd
  }

  /** A descriptor is in the table exactly when the last operation on it set some interest,
      and then with that interest. */
  lemma {:induction false} TableIsLastWord(ops: seq<PollOp>, fd: Fd)
    ensures fd in RunTable(ops) ==> exists i: nat :: LastOn(ops, fd, i)
    ensures forall i: nat :: LastOn(ops, fd, i) ==>
      && (fd in RunTable(ops) <==> ops[i].Change? && ops[i].events != NO_INTEREST)
      && (fd in RunTable(ops) ==> RunTable(ops)[fd] == ops[i].events)
    decreases |ops|
  {
    if ops != [] {
      var n := |ops| - 1;
      var before := ops[..n];
      TableIsLastWord(before, fd);
      if ops[n].fd == fd {
        assert LastOn(ops, fd, n);
      } else {
        forall i: nat
          ensures LastOn(ops, fd, i) <==> LastOn(before, fd, i)
        {}
      }
    }
  }
}
