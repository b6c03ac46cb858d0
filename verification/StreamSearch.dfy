/** The on-line multi-pattern search of Stream.cpp: findMulti, findUntil and find.
    The byte stream is read once, left to right; no failure table is built. */
module StreamSearch {
  type Byte = b: int | 0 <= b < 256

  /** One entry of the targets array: the searched string and how much of it is matched. */
  datatype MultiTarget = MultiTarget(str: seq<Byte>, index: nat)

  /** Which target was found (or -1) and how many bytes were consumed. */
  datatype Outcome = Outcome(which: int, consumed: nat)

  predicate EndsWith(s: seq<Byte>, t: seq<Byte>) {
    |t| <= |s| && s[|s| - |t|..] == t
  }

  // ---------- the naive search ----------

  /** The lowest-numbered string, from `k` on, that ends `s`; -1 if none does. */
  function LowestEnding(strs: seq<seq<Byte>>, s: seq<Byte>, k: nat): (r: int)
    requires k <= |strs|
    ensures r == -1 || k <= r < |strs|
    ensures r == -1 ==> forall j :: k <= j < |strs| ==> !EndsWith(s, strs[j])
    ensures r >= 0 ==> EndsWith(s, strs[r]) && forall j :: k <= j < r ==> !EndsWith(s, strs[j])
    decreases |strs| - k
  {
    if k == |strs| then -1
    else if EndsWith(s, strs[k]) then k
    else LowestEnding(strs, s, k + 1)
  }

  /** Naive search: look at every prefix of `rest`, from length `n` on, for a target ending it. */
  function NaiveFrom(strs: seq<seq<Byte>>, rest: seq<Byte>, n: nat): Outcome
    requires n <= |rest|
    decreases |rest| - n
  {
    var r := LowestEnding(strs, rest[..n], 0);
    if r >= 0 || n == |rest| then Outcome(r, n)
    else NaiveFrom(strs, rest, n + 1)
  }

  function Naive(strs: seq<seq<Byte>>, rest: seq<Byte>): Outcome {
    NaiveFrom(strs, rest, 0)
  }

  lemma {:induction false} StopsAt(strs: seq<seq<Byte>>, rest: seq<Byte>, n: nat)
    requires n <= |rest| && (LowestEnding(strs, rest[..n], 0) >= 0 || n == |rest|)
    ensures NaiveFrom(strs, rest, n) == Outcome(LowestEnding(strs, rest[..n], 0), n)
  {
  }

  lemma {:induction false} EmptyTargetWins(strs: seq<seq<Byte>>, rest: seq<Byte>, t: nat)
    requires t < |strs| && strs[t] == [] && forall j :: 0 <= j < t ==> |strs[j]| > 0
    ensures Naive(strs, rest) == Outcome(t, 0)
  {
    assert EndsWith(rest[..0], strs[t]);
    var r := LowestEnding(strs, rest[..0], 0);
    StopsAt(strs, rest, 0);
  }

  ghost predicate NothingEnds(strs: seq<seq<Byte>>, s: seq<Byte>) {
    forall j :: 0 <= j < |strs| ==> !EndsWith(s, strs[j])
  }

  /** What the naive search promises: the shortest prefix that some target ends, and the
      lowest-numbered such target; or -1 with everything read and no target anywhere. */
  lemma {:induction false} NaiveFromMeaning(strs: seq<seq<Byte>>, rest: seq<Byte>, n: nat)
    requires n <= |rest|
    ensures var o := NaiveFrom(strs, rest, n);
            && n <= o.consumed <= |rest|
            && (forall m :: n <= m < o.consumed ==> NothingEnds(strs, rest[..m]))
            && (o.which < 0 ==> o.which == -1 && o.consumed == |rest| && NothingEnds(strs, rest))
            && (o.which >= 0 ==>
                  && o.which < |strs|
                  && EndsWith(rest[..o.consumed], strs[o.which])
                  && forall j :: 0 <= j < o.which ==> !EndsWith(rest[..o.consumed], strs[j]))
    decreases |rest| - n
  {
    var r := LowestEnding(strs, rest[..n], 0);
    if r >= 0 {
    } else if n == |rest| {
      assert rest[..n] == rest;
    } else {
      NaiveFromMeaning(strs, rest, n + 1);
      assert NothingEnds(strs, rest[..n]);
    }
  }

  /** For one target and one terminator: the target is reported exactly when it ends some
      prefix and the terminator ends no shorter one. */
  lemma {:induction false} TargetBeforeTerminator(target: seq<Byte>, terminator: seq<Byte>, rest: seq<Byte>)
    ensures Naive([target, terminator], rest).which == 0 <==> FoundBefore(target, terminator, rest)
  {
    NaiveFromMeaning([target, terminator], rest, 0);
    Decides(target, terminator, rest, [target, terminator], Naive([target, terminator], rest));
  }

  lemma Decides(target: seq<Byte>, terminator: seq<Byte>, rest: seq<Byte>, strs: seq<seq<Byte>>, o: Outcome)
    requires |strs| == 2 && strs[0] == target && strs[1] == terminator && 0 <= o.consumed <= |rest|
    requires forall m :: 0 <= m < o.consumed ==> NothingEnds(strs, rest[..m])
    requires o.which < 0 ==> o.which == -1 && o.consumed == |rest| && NothingEnds(strs, rest)
    requires o.which >= 0 ==> o.which < 2 && EndsWith(rest[..o.consumed], strs[o.which])
                              && forall j :: 0 <= j < o.which ==> !EndsWith(rest[..o.consumed], strs[j])
    ensures o.which == 0 <==> FoundBefore(target, terminator, rest)
  {
    if o.which == 0 {
      forall m | 0 <= m < o.consumed ensures !EndsWith(rest[..m], terminator) {
        assert NothingEnds(strs, rest[..m]);
      }
    } else {
      forall n | 0 <= n <= |rest| && (o.which == -1 || n <= o.consumed)
        ensures !EndsWith(rest[..n], target)
      {
        assert n == |rest| ==> rest[..n] == rest;
        assert n < o.consumed ==> NothingEnds(strs, rest[..n]);
      }
    }
  }

  ghost predicate FoundBefore(target: seq<Byte>, terminator: seq<Byte>, rest: seq<Byte>) {
    exists n :: 0 <= n <= |rest| && EndsWith(rest[..n], target)
             && forall m :: 0 <= m < n ==> !EndsWith(rest[..m], terminator)
  }

  ghost predicate Contains(rest: seq<Byte>, target: seq<Byte>) {
    exists n :: 0 <= n <= |rest| && EndsWith(rest[..n], target)
  }

  /** With no terminator the target is reported exactly when it occurs at all. */
  lemma {:induction false} LoneTarget(target: seq<Byte>, rest: seq<Byte>)
    ensures Naive([target], rest).which == 0 <==> Contains(rest, target)
  {
    var strs := [target];
    var o := Naive(strs, rest);
    NaiveFromMeaning(strs, rest, 0);
    assert strs[0] == target;
    if o.which != 0 {
      forall n | 0 <= n <= |rest| ensures !EndsWith(rest[..n], target) {
        assert n == |rest| ==> rest[..n] == rest;
        assert NothingEnds(strs, rest[..n]);
      }
    }
  }

  // ---------- one target, one byte ----------

  /** `k` is the length of the longest proper prefix of `str` that ends `s`. */
  ghost predicate IsLongest(str: seq<Byte>, s: seq<Byte>, k: nat) {
    && k < |str|
    && EndsWith(s, str[..k])
    && forall j :: k < j < |str| ==> !EndsWith(s, str[..j])
  }

  lemma EndsWithSnoc(s: seq<Byte>, c: Byte, str: seq<Byte>, j: nat)
    requires j < |str|
    ensures EndsWith(s + [c], str[..j + 1]) <==> EndsWith(s, str[..j]) && str[j] == c
  {
    if |str[..j + 1]| <= |s| + 1 {
      var a := (s + [c])[|s| - j..];
      assert a == s[|s| - j..] + [c];
      assert str[..j + 1] == str[..j] + [str[j]];
      if a == str[..j + 1] {
        assert a[..j] == s[|s| - j..] == str[..j];
        assert a[j] == c;
      }
    }
  }

  /** Inside an already matched stretch `str[..o]`, a shorter prefix ends the text exactly
      when it ends that stretch. */
  lemma EndsWithInside(s: seq<Byte>, str: seq<Byte>, o: nat, j: nat)
    requires j <= o <= |str| && EndsWith(s, str[..o])
    ensures EndsWith(s, str[..j]) <==> str[..j] == str[o - j..o]
  {
    assert s[|s| - j..] == s[|s| - o..][o - j..];
    assert str[..o][o - j..] == str[o - j..o];
  }

  /** Mismatch at `orig`: once `j` has been tried, no prefix longer than `j` can continue. */
  ghost predicate Excluded(str: seq<Byte>, s: seq<Byte>, j: nat) {
    forall k :: j < k < |str| ==> !EndsWith(s, str[..k])
  }

  /** The loop body of findMulti for one target and the byte just read: advance, or walk the
      index back to the longest prefix that still matches. */
  method AdvanceTarget(t: MultiTarget, c: Byte, ghost s: seq<Byte>) returns (index: nat, found: bool)
    requires IsLongest(t.str, s, t.index)
    ensures found <==> EndsWith(s + [c], t.str)
    ensures !found ==> IsLongest(t.str, s + [c], index)
  {
    index := t.index;
    NoLongerThanNext(t.str, s, c, index);
    if c == t.str[index] {
      index := index + 1;
      found := index == |t.str|;
      assert t.str[..|t.str|] == t.str;
    } else {
      found := false;
      index := WalkBack(t.str, index, c, s);
    }
  }

  /** A prefix that ends the longer text is at most one byte longer than the current index. */
  lemma NoLongerThanNext(str: seq<Byte>, s: seq<Byte>, c: Byte, index: nat)
    requires IsLongest(str, s, index)
    ensures Excluded(str, s + [c], index + 1)
    ensures EndsWith(s + [c], str[..index + 1]) <==> str[index] == c
    ensures EndsWith(s + [c], str) <==> index + 1 == |str| && str[index] == c
  {
    EndsWithSnoc(s, c, str, index);
    forall k | index + 1 < k <= |str| ensures !EndsWith(s + [c], str[..k]) {
      EndsWithSnoc(s, c, str, k - 1);
    }
    assert str[..|str|] == str;
  }

  /** One turn of the walk: prefix `index + 1` continues the text exactly when the byte fits
      and the stretch before it repeats the prefix. */
  lemma WalkStep(str: seq<Byte>, s: seq<Byte>, c: Byte, orig: nat, index: nat)
    requires IsLongest(str, s, orig) && index < orig
    requires Excluded(str, s + [c], index + 1)
    ensures if c == str[index] && str[..index] == str[orig - index..orig]
            then IsLongest(str, s + [c], index + 1)
            else Excluded(str, s + [c], index)
  {
    EndsWithSnoc(s, c, str, index);
    EndsWithInside(s, str, orig, index);
    forall k | index + 1 < k < |str| ensures !EndsWith(s + [c], str[..k]) {}
  }

  lemma WalkStart(str: seq<Byte>, s: seq<Byte>, c: Byte, orig: nat)
    requires IsLongest(str, s, orig) && c != str[orig]
    ensures Excluded(str, s + [c], orig)
  {
    NoLongerThanNext(str, s, c, orig);
    forall k | orig < k < |str| ensures !EndsWith(s + [c], str[..k]) {
      assert k == orig + 1 || k > orig + 1;
    }
  }

  /** The do-while of findMulti: try every shorter prefix of the matched stretch, longest first. */
  method WalkBack(str: seq<Byte>, orig: nat, c: Byte, ghost s: seq<Byte>) returns (index: nat)
    requires IsLongest(str, s, orig) && c != str[orig]
    ensures IsLongest(str, s + [c], index)
  {
    WalkStart(str, s, c, orig);
    index := orig;
    while index > 0
      invariant 0 <= index <= orig
      invariant Excluded(str, s + [c], index)
    {
      index := index - 1;
      var fits := TryPrefix(str, index, orig, c, s);
      if fits {
        return index + 1;
      }
    }
  }

  /** One turn of the do-while: the byte must fit, and unless it is the only one the stretch
      before it must repeat the prefix. */
  method TryPrefix(str: seq<Byte>, index: nat, orig: nat, c: Byte, ghost s: seq<Byte>) returns (fits: bool)
    requires IsLongest(str, s, orig) && index < orig
    requires Excluded(str, s + [c], index + 1)
    ensures if fits then IsLongest(str, s + [c], index + 1) else Excluded(str, s + [c], index)
  {
    WalkStep(str, s, c, orig, index);
    if c != str[index] {
      return false;
    }
    if index == 0 {
      return true;
    }
    fits := SamePrefix(str, index, orig - index);
  }

  /** The inner comparison loop: does the stretch ending before `index + diff` repeat the prefix? */
  method SamePrefix(str: seq<Byte>, index: nat, diff: nat) returns (agrees: bool)
    requires index + diff <= |str|
    ensures agrees <==> str[..index] == str[diff..index + diff]
  {
    var i := 0;
    while i < index && str[i] == str[i + diff]
      invariant 0 <= i <= index
      invariant forall m :: 0 <= m < i ==> str[m] == str[m + diff]
    {
      i := i + 1;
    }
    agrees := i == index;
    assert i < index ==> str[..index][i] != str[diff..index + diff][i];
  }

  // ---------- all targets, one byte ----------

  ghost function Strings(ts: seq<MultiTarget>): (r: seq<seq<Byte>>)
    ensures |r| == |ts| && forall j :: 0 <= j < |ts| ==> r[j] == ts[j].str
  {
    seq(|ts|, j requires 0 <= j < |ts| => ts[j].str)
  }

  ghost predicate Tracks(ts: seq<MultiTarget>, strs: seq<seq<Byte>>, s: seq<Byte>) {
    && Strings(ts) == strs
    && forall j :: 0 <= j < |ts| ==> IsLongest(strs[j], s, ts[j].index)
  }

  /** The for loop over the targets for one byte: the first target completed wins, and only
      when none is do all of them keep their longest-prefix index. */
  method AdvanceAll(targets: array<MultiTarget>, c: Byte, ghost strs: seq<seq<Byte>>, ghost s: seq<Byte>)
      returns (r: int)
    requires Tracks(targets[..], strs, s)
    modifies targets
    ensures r == LowestEnding(strs, s + [c], 0)
    ensures r == -1 ==> Tracks(targets[..], strs, s + [c])
  {
    var t := 0;
    while t < targets.Length
      invariant 0 <= t <= targets.Length
      invariant Strings(targets[..]) == strs
      invariant forall j :: 0 <= j < t ==> !EndsWith(s + [c], strs[j])
      invariant forall j :: 0 <= j < t ==> IsLongest(strs[j], s + [c], targets[j].index)
      invariant forall j :: t <= j < |strs| ==> IsLongest(strs[j], s, targets[j].index)
    {
      var index, found := AdvanceTarget(targets[t], c, s);
      targets[t] := targets[t].(index := index);
      if found {
        return t;
      }
      t := t + 1;
    }
    r := -1;
  }

  // ---------- the stream and its time-out ----------

  /** One pass of the polling loop: what read() returned (-1 for nothing yet) and what millis()
      read before the first pass of a call, and after this pass. */
  datatype Poll = Poll(c: int, before: nat, after: nat)

  /** Milliseconds between two readings of the wrapping 32-bit counter. */
  function Elapsed(start: nat, now: nat): nat {
    (now - start) % 0x1_0000_0000
  }

  /** The poll that ends a timedRead begun at time `start` with poll `p`, when it delivers a byte. */
  function Delivery(polls: seq<Poll>, timeout: nat, p: nat, start: nat): (d: nat)
    requires p <= |polls|
    ensures p <= d <= |polls|
    ensures d < |polls| ==> polls[d].c >= 0
    decreases |polls| - p
  {
    if p == |polls| || polls[p].c >= 0 then p
    else if Elapsed(start, polls[p].after) < timeout then Delivery(polls, timeout, p + 1, start)
    else |polls|
  }

  /** Poll `d` is the first with a byte of a call that begins with poll `p`, and after no earlier one
      has the counter moved `timeout` milliseconds or more since the call began. */
  ghost predicate InTime(polls: seq<Poll>, timeout: nat, p: nat, d: nat, start: nat) {
    && p <= d < |polls| && polls[d].c >= 0
    && forall k :: p <= k < d ==> polls[k].c < 0 && (polls[k].after - start) % 0x1_0000_0000 < timeout
  }

  /** A byte is delivered by exactly that poll, and by none exactly if there is no such poll. */
  lemma {:induction false} DeliveryIff(polls: seq<Poll>, timeout: nat, p: nat, d: nat, start: nat)
    requires p <= |polls| && p <= d < |polls|
    ensures Delivery(polls, timeout, p, start) == d <==> InTime(polls, timeout, p, d, start)
    decreases |polls| - p
  {
    if polls[p].c < 0 && Elapsed(start, polls[p].after) < timeout && p < d {
      DeliveryIff(polls, timeout, p + 1, d, start);
    }
  }

  /** The bytes that consecutive timedRead calls deliver before the first of them times out. */
  function Delivered(polls: seq<Poll>, timeout: nat, p: nat): seq<Byte>
    requires p <= |polls| && forall q :: 0 <= q < |polls| ==> polls[q].c < 256
    decreases |polls| - p
  {
    if p == |polls| then []
    else
      var d := Delivery(polls, timeout, p, polls[p].before);
      if d == |polls| then [] else [polls[d].c] + Delivered(polls, timeout, d + 1)
  }

  class Stream {
    const polls: seq<Poll>
    var timeout: nat
    var pos: nat
    var startMillis: nat
    /** Every byte timedRead has returned. */
    ghost var taken: seq<Byte>

    constructor (polls: seq<Poll>)
      requires forall q :: 0 <= q < |polls| ==> polls[q].c < 256
      ensures Valid() && this.polls == polls && pos == 0 && timeout == 1000 && taken == []
    {
      this.polls := polls;
      timeout, pos, startMillis, taken := 1000, 0, 0, [];
    }

    ghost predicate Valid()
      reads this
    {
      pos <= |polls| && forall q :: 0 <= q < |polls| ==> polls[q].c < 256
    }

    /** What the stream still delivers before it falls silent for longer than the time-out. */
    ghost function Pending(): seq<Byte>
      reads this
      requires Valid()
    {
      Delivered(polls, timeout, pos)
    }

    /** Of `rest`, exactly the bytes up to the outcome have been taken: up to the end of the target
        found, or all that was delivered. */
    ghost predicate Consumed(rest: seq<Byte>, o: Outcome, before: seq<Byte>)
      reads this
    {
      && Valid() && o.consumed <= |rest| && taken == before + rest[..o.consumed]
      && if o.which >= 0 then Pending() == rest[o.consumed..] else o.consumed == |rest|
    }

    /** Polls until a byte comes or the time-out passes; a stream with no polls left is silent. */
    method TimedRead() returns (c: int)
      requires Valid()
      modifies this
      ensures Valid() && timeout == old(timeout)
      ensures old(Pending()) == [] ==> c == -1 && taken == old(taken)
      ensures old(Pending()) != [] ==> c == old(Pending())[0] && Pending() == old(Pending())[1..]
      ensures old(Pending()) != [] ==> taken == old(taken) + [c]
      ensures c >= 0 ==>
                old(pos) < pos && c == polls[pos - 1].c
                && InTime(polls, timeout, old(pos), pos - 1, polls[old(pos)].before)
      ensures c < 0 ==>
                c == -1 && forall d :: old(pos) <= d < |polls| ==>
                             !InTime(polls, timeout, old(pos), d, polls[old(pos)].before)
    {
      if pos == |polls| {
        return -1;
      }
      startMillis := polls[pos].before;
      ghost var d := Delivery(polls, timeout, pos, startMillis);
      forall q | pos <= q < |polls| ensures d == q <==> InTime(polls, timeout, pos, q, startMillis) {
        DeliveryIff(polls, timeout, pos, q, startMillis);
      }
      while pos < |polls|
        invariant Valid() && timeout == old(timeout)
        invariant Delivery(polls, timeout, pos, startMillis) == d && taken == old(taken)
        decreases |polls| - pos
      {
        var poll := polls[pos];
        pos := pos + 1;
        if poll.c >= 0 {
          taken := taken + [poll.c];
          return poll.c;
        }
        if Elapsed(startMillis, poll.after) >= timeout {
          break;
        }
      }
      c := -1;
    }

    /** The first target of length zero. */
    static method EmptyTarget(targets: array<MultiTarget>) returns (t: int)
      ensures t == -1 || 0 <= t < targets.Length
      ensures t >= 0 ==> targets[t].str == [] && forall j :: 0 <= j < t ==> |targets[j].str| > 0
      ensures t == -1 ==> forall j :: 0 <= j < targets.Length ==> |targets[j].str| > 0
    {
      t := 0;
      while t < targets.Length
        invariant 0 <= t <= targets.Length
        invariant forall j :: 0 <= j < t ==> |targets[j].str| > 0
      {
        if |targets[t].str| == 0 {
          return;
        }
        t := t + 1;
      }
      t := -1;
    }

    /** Zero-length targets match at once; otherwise bytes are read until a target ends, or
        until nothing more is delivered. */
    method FindMulti(targets: array<MultiTarget>) returns (r: int)
      requires Valid()
      requires forall j :: 0 <= j < targets.Length ==> targets[j].index == 0
      modifies this, targets
      ensures Valid() && timeout == old(timeout)
      ensures var o := Naive(old(Strings(targets[..])), old(Pending()));
              r == o.which && Consumed(old(Pending()), o, old(taken))
    {
      ghost var strs := Strings(targets[..]);
      ghost var rest := Pending();
      r := EmptyTarget(targets);
      if r >= 0 {
        EmptyTargetWins(strs, rest, r);
        return;
      }
      r := ReadToTarget(targets, strs);
    }

    /** The reading loop of findMulti. */
    method ReadToTarget(targets: array<MultiTarget>, ghost strs: seq<seq<Byte>>) returns (r: int)
      requires Valid() && Tracks(targets[..], strs, []) && LowestEnding(strs, [], 0) == -1
      modifies this, targets
      ensures Valid() && timeout == old(timeout)
      ensures var o := Naive(strs, old(Pending())); r == o.which && Consumed(old(Pending()), o, old(taken))
    {
      ghost var rest, before := Pending(), taken;
      ghost var n := 0;
      assert rest[..0] == [];
      while true
        invariant At(rest, n, before) && timeout == old(timeout)
        invariant Tracks(targets[..], strs, rest[..n]) && LowestEnding(strs, rest[..n], 0) == -1
        invariant NaiveFrom(strs, rest, n) == Naive(strs, rest)
        decreases |rest| - n
      {
        r := TimedReadAt(rest, n, before);
        if r < 0 {
          break;
        }
        r := AdvanceAll(targets, r, strs, rest[..n]);
        n := n + 1;
        if r >= 0 {
          break;
        }
      }
      StopsAt(strs, rest, n);
    }

    /** The first `n` bytes of `rest` have been taken. */
    ghost predicate At(rest: seq<Byte>, n: int, before: seq<Byte>)
      reads this
    {
      Valid() && 0 <= n <= |rest| && Pending() == rest[n..] && taken == before + rest[..n]
    }

    method TimedReadAt(ghost rest: seq<Byte>, ghost n: nat, ghost before: seq<Byte>) returns (c: int)
      requires At(rest, n, before)
      modifies this
      ensures timeout == old(timeout)
      ensures c < 0 ==> c == -1 && n == |rest| && Valid() && taken == before + rest[..n]
      ensures c >= 0 ==> n < |rest| && c == rest[n] && rest[..n + 1] == rest[..n] + [c] && At(rest, n + 1, before)
    {
      c := TimedRead();
    }

    method FindUntil(target: seq<Byte>, terminator: seq<Byte>) returns (b: bool)
      requires Valid()
      modifies this
      ensures Valid()
      ensures b <==> FoundBefore(target, terminator, old(Pending()))
      ensures Consumed(old(Pending()), Naive([target, terminator], old(Pending())), old(taken))
    {
      var t := new MultiTarget[2](i => MultiTarget(if i == 0 then target else terminator, 0));
      assert Strings(t[..]) == [target, terminator];
      TargetBeforeTerminator(target, terminator, Pending());
      var r := FindMulti(t);
      b := r == 0;
    }

    method Find(target: seq<Byte>) returns (b: bool)
      requires Valid()
      modifies this
      ensures Valid()
      ensures b <==> Contains(old(Pending()), target)
      ensures Consumed(old(Pending()), Naive([target], old(Pending())), old(taken))
    {
      var t := new MultiTarget[1](i => MultiTarget(target, 0));
      assert Strings(t[..]) == [target];
      LoneTarget(target, Pending());
      var r := FindMulti(t);
      b := r == 0;
    }
  }
}
