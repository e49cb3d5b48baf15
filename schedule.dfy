/** `make_frames` of graphics/gen_frames.py: the observations, put into
    chronological order, are grouped by day; when the day changes, the day's
    group joins the active list and one frame is rendered for the day, then one
    carry-forward frame for each day skipped before the next observation.

    `Frames` is the schedule as a fold over the chronological list; the method
    `MakeFrames` is the loop of the program, proved to produce it. */
module Schedule {
  import opened Wrappers
  import opened Dates
  import opened Render
  import opened PyStr

  /** `list.reverse()` as a value. */
  function Reversed<T>(s: seq<T>): (r: seq<T>)
    ensures |r| == |s|
    ensures forall k :: 0 <= k < |s| ==> r[k] == s[|s| - 1 - k]
  {
    if s == [] then [] else [s[|s| - 1]] + Reversed(s[..|s| - 1])
  }

  /** `n` consecutive frames, the first dated `today`: `makeSVG(all_obvs,
      today, _, k)` for `k` from 0 to `n - 1`, each on the list the previous
      one left. The result is the list left by the last one and the frames. */
  function RenderDays(active: seq<Obv>, today: int, n: nat): (out: (seq<Obv>, seq<Frame>))
    ensures |out.1| == n
    ensures forall k :: 0 <= k < n ==> out.1[k].date == today + k
  {
    if n == 0 then (active, [])
    else
      var prev := RenderDays(active, today, n - 1);
      var r := Iterate(prev.0, 0);
      (r.0, prev.1 + [Frame(today + n - 1, r.1)])
  }

  /** The frames rendered when the day changes from `today` to `next`: the
      day's own frame, and `change_count - 1` carry-forward frames when
      `change_count` exceeds 1. */
  function FlushCount(today: int, next: int): (n: nat)
    ensures n == if next > today + 1 then next - today else 1
  {
    var changeCount := DateDiff(today, next);
    if changeCount > 1 then changeCount else 1
  }

  /** The loop state of `make_frames`: `today`, `today_obvs`, `all_obvs`, and
      the frames written so far. */
  datatype Sched = Sched(today: int, pending: seq<Obv>, active: seq<Obv>, frames: seq<Frame>)

  /** One iteration of the loop over `observations`. */
  function Advance(st: Sched, o: Observation): Sched {
    if o.observedOn != st.today then
      var out := RenderDays(st.active + st.pending, st.today, FlushCount(st.today, o.observedOn));
      Sched(o.observedOn, [Enter(o)], out.0, st.frames + out.1)
    else
      st.(pending := st.pending + [Enter(o)])
  }

  /** One iteration moves `today` to the observation's day, puts the
      observation last in the day's group, and only appends frames: none on
      the same day, `FlushCount` of them on a change of day. */
  lemma AdvanceShape(st: Sched, o: Observation)
    ensures var r := Advance(st, o);
      && r.today == o.observedOn
      && |r.pending| > 0 && r.pending[|r.pending| - 1] == Enter(o)
      && |st.frames| <= |r.frames| && r.frames[..|st.frames|] == st.frames
      && (o.observedOn == st.today ==> r.frames == st.frames)
      && (o.observedOn != st.today ==> |r.frames| == |st.frames| + FlushCount(st.today, o.observedOn))
  {
  }

  function Run(st: Sched, obs: seq<Observation>): Sched {
    if obs == [] then st else Advance(Run(st, obs[..|obs| - 1]), obs[|obs| - 1])
  }

  function Start(obs: seq<Observation>): Sched
    requires |obs| > 0
  {
    Sched(obs[0].observedOn, [], [], [])
  }

  /** The frames of `make_frames` on a list already in chronological order:
      `IndexError` for an empty list (`observations[0]`), otherwise every
      frame of the loop and the final one for the last day. */
  function Frames(obs: seq<Observation>): (r: Result<seq<Frame>>)
    ensures r.Err? <==> obs == []
    ensures r.Err? ==> r.error == IndexError
  {
    if obs == [] then Err(IndexError)
    else
      var st := Run(Start(obs), obs);
      var out := RenderDays(st.active + st.pending, st.today, 1);
      Ok(st.frames + out.1)
  }

  /** `observations.reverse()`, in place. */
  method Reverse<T>(a: array<T>)
    modifies a
    ensures a[..] == Reversed(old(a[..]))
  {
    var n := a.Length;
    var i := 0;
    while i < n / 2
      invariant 0 <= i <= n / 2
      invariant forall k :: 0 <= k < i ==> a[k] == old(a[n - 1 - k]) && a[n - 1 - k] == old(a[k])
      invariant forall k :: i <= k < n - i ==> a[k] == old(a[k])
    {
      a[i], a[n - 1 - i] := a[n - 1 - i], a[i];
      i := i + 1;
    }
  }

  /** `make_frames(observations, save_folder)`: reverses the caller's list in
      place, then renders the frames, returned in the order they are written. */
  method MakeFrames(observations: array<Observation>) returns (r: Result<seq<Frame>>)
    modifies observations
    ensures observations[..] == Reversed(old(observations[..]))
    ensures r == Frames(observations[..])
  {
    Reverse(observations);
    var obs := observations[..];
    if |obs| == 0 {
      return Err(IndexError);
    }
    var all := new ActiveSet();
    var today, todayObvs, frames := RunDays(all, obs);
    all.Extend(todayObvs);
    ghost var flushed := all.obvs;
    var frame, _ := all.MakeSvg(today, 0);
    RenderDaysStep(flushed, today, 0);
    r := Ok(frames + [frame]);
  }

  /** The `for obv in observations` loop of `make_frames`, on the reversed
      list and the fresh, empty `all_obvs`: it ends with `today`,
      `today_obvs` and `all_obvs` as `Run` says, having rendered `frames`. */
  method RunDays(all: ActiveSet, obs: seq<Observation>) returns (today: int, todayObvs: seq<Obv>, frames: seq<Frame>)
    requires |obs| > 0 && all.obvs == []
    modifies all
    ensures Run(Start(obs), obs) == Sched(today, todayObvs, all.obvs, frames)
  {
    todayObvs := [];
    today := obs[0].observedOn;
    frames := [];
    ghost var init := Start(obs);
    assert obs[..0] == [];
    for k := 0 to |obs|
      invariant Run(init, obs[..k]) == Sched(today, todayObvs, all.obvs, frames)
    {
      var o := obs[k];
      RunSnoc(init, obs, k);
      if o.observedOn != today {
        var changeCount := DateDiff(today, o.observedOn);
        all.Extend(todayObvs);
        var fs := RenderFlush(all, today, changeCount);
        frames := frames + fs;
        todayObvs := [Enter(o)];
        today := o.observedOn;
      } else {
        todayObvs := todayObvs + [Enter(o)];
      }
    }
    assert obs[..|obs|] == obs;
  }

  lemma RunSnoc(init: Sched, obs: seq<Observation>, k: nat)
    requires k < |obs|
    ensures Run(init, obs[..k + 1]) == Advance(Run(init, obs[..k]), obs[k])
  {
    assert obs[..k + 1][..k] == obs[..k];
  }

  lemma RenderDaysStep(active: seq<Obv>, today: int, n: nat)
    ensures var prev := RenderDays(active, today, n);
      RenderDays(active, today, n + 1)
        == (Iterate(prev.0, 0).0, prev.1 + [Frame(today + n, Iterate(prev.0, 0).1)])
    ensures n == 0 ==>
      RenderDays(active, today, 1) == (Iterate(active, 0).0, [Frame(today, Iterate(active, 0).1)])
  {
    assert [] + [Frame(today, Iterate(active, 0).1)] == [Frame(today, Iterate(active, 0).1)];
  }

  /** The frames written on a change of day: the day itself, and the
      carry-forward frames `makeSVG(all_obvs, today, _, i)` for `i` in
      `range(1, change_count)` when `change_count > 1`. */
  method RenderFlush(all: ActiveSet, today: int, changeCount: int) returns (fs: seq<Frame>)
    modifies all
    ensures var n := if changeCount > 1 then changeCount else 1;
      (all.obvs, fs) == RenderDays(old(all.obvs), today, n)
  {
    ghost var start := all.obvs;
    var frame, _ := all.MakeSvg(today, 0);
    fs := [frame];
    RenderDaysStep(start, today, 0);
    if changeCount > 1 {
      for i := 1 to changeCount
        invariant RenderDays(start, today, i) == (all.obvs, fs)
      {
        RenderDaysStep(start, today, i);
        var next, _ := all.MakeSvg(today, i);
        fs := fs + [next];
      }
    }
  }

  // ---------------------------------------------------------------------------
  // Properties of the schedule
  // ---------------------------------------------------------------------------

  /** Chronological order: what `reverse()` produces from a list sorted newest first. */
  predicate NonDecreasing(obs: seq<Observation>) {
    forall i, j :: 0 <= i < j < |obs| ==> obs[i].observedOn <= obs[j].observedOn
  }

  /** A list sorted newest first is chronological once reversed. */
  lemma {:induction false} ReversedNewestFirst(s: seq<Observation>)
    requires forall i, j :: 0 <= i < j < |s| ==> s[i].observedOn >= s[j].observedOn
    ensures NonDecreasing(Reversed(s))
  {
    var r := Reversed(s);
    forall i, j | 0 <= i < j < |r| ensures r[i].observedOn <= r[j].observedOn {
      assert r[i] == s[|s| - 1 - i] && r[j] == s[|s| - 1 - j];
    }
  }

  /** After the first `k` observations of a chronological list, `today` is
      the day of the latest one, and one frame has been written for each day
      from the first observation's day up to the day before `today`. */
  lemma {:induction false} RunDates(obs: seq<Observation>, k: nat)
    requires 0 < k <= |obs| && NonDecreasing(obs)
    ensures var st := Run(Start(obs), obs[..k]);
      && st.today == obs[k - 1].observedOn
      && |st.frames| == st.today - obs[0].observedOn
      && forall m :: 0 <= m < |st.frames| ==> st.frames[m].date == obs[0].observedOn + m
  {
    RunSnoc(Start(obs), obs, k - 1);
    if k == 1 {
      assert obs[..0] == [];
    } else {
      RunDates(obs, k - 1);
    }
  }

  /** For chronological input, the frames are dated with every day from the
      first observation's to the last one's, each exactly once, in order. */
  lemma {:induction false} FrameDates(obs: seq<Observation>)
    requires |obs| > 0 && NonDecreasing(obs)
    ensures Frames(obs).Ok?
    ensures var fs := Frames(obs).value;
      && |fs| == obs[|obs| - 1].observedOn - obs[0].observedOn + 1
      && forall m :: 0 <= m < |fs| ==> fs[m].date == obs[0].observedOn + m
  {
    RunDates(obs, |obs|);
    assert obs[..|obs|] == obs;
  }

  /** What the loop state holds for chronological input: every entry of the
      active list and of the day's group is an input observation not later
      than `today`, and each frame so far draws only what `Drawable` allows on
      its date. */
  predicate Sound(st: Sched, obs: seq<Observation>) {
    && Stored(st.active, obs, st.today)
    && Stored(st.pending, obs, st.today)
    && forall m :: 0 <= m < |st.frames| ==> Drawable(st.frames[m].drawn, obs, st.frames[m].date)
  }

  lemma {:induction false} RenderDaysKeeps(active: seq<Obv>, today: int, n: nat, obs: seq<Observation>)
    requires Stored(active, obs, today)
    ensures Stored(RenderDays(active, today, n).0, obs, today)
    ensures forall k :: 0 <= k < n ==> Drawable(RenderDays(active, today, n).1[k].drawn, obs, today + k)
  {
    if n > 0 {
      RenderDaysKeeps(active, today, n - 1, obs);
      var prev := RenderDays(active, today, n - 1);
      IterateKeeps(prev.0, 0, obs, today);
      DrawableLater(Iterate(prev.0, 0).1, obs, today, today + n - 1);
    }
  }

  lemma {:induction false} RunSound(obs: seq<Observation>, k: nat)
    requires 0 < k <= |obs| && NonDecreasing(obs)
    ensures Run(Start(obs), obs[..k]).today == obs[k - 1].observedOn
    ensures Sound(Run(Start(obs), obs[..k]), obs)
  {
    RunSnoc(Start(obs), obs, k - 1);
    if k == 1 {
      assert obs[..0] == [];
    } else {
      RunSound(obs, k - 1);
      AdvanceSound(Run(Start(obs), obs[..k - 1]), obs[k - 1], obs);
    }
  }

  /** One iteration of the loop keeps the schedule sound when the next
      observation is one of the input and not earlier than `today`. */
  lemma AdvanceSound(st: Sched, o: Observation, obs: seq<Observation>)
    requires Sound(st, obs) && o in obs && st.today <= o.observedOn
    ensures Sound(Advance(st, o), obs)
  {
    if o.observedOn != st.today {
      var n := FlushCount(st.today, o.observedOn);
      RenderDaysKeeps(st.active + st.pending, st.today, n, obs);
      var out := RenderDays(st.active + st.pending, st.today, n);
      StoredLater(out.0, obs, st.today, o.observedOn);
      var frames := st.frames + out.1;
      forall m | 0 <= m < |frames| ensures Drawable(frames[m].drawn, obs, frames[m].date) {
        if m >= |st.frames| {
          assert frames[m] == out.1[m - |st.frames|];
        }
      }
    }
  }

  /** For chronological input, a frame only draws input observations made on
      or before its date, each at an opacity between zero and ten tenths. */
  lemma {:induction false} DrawnNotBefore(obs: seq<Observation>)
    requires |obs| > 0 && NonDecreasing(obs)
    ensures Frames(obs).Ok?
    ensures var fs := Frames(obs).value;
      forall m, a :: 0 <= m < |fs| && a in fs[m].drawn ==>
        a.src in obs && a.src.observedOn <= fs[m].date && 0 <= a.opacity <= 10
  {
    RunSound(obs, |obs|);
    assert obs[..|obs|] == obs;
    var st := Run(Start(obs), obs);
    RenderDaysKeeps(st.active + st.pending, st.today, 1, obs);
  }

  /** One observation alone in the active list: for eleven frames it is drawn
      at ten, nine, ..., one, zero tenths, one step less each frame. */
  lemma {:induction false} Lifetime(o: Observation, t: int, n: nat)
    requires n <= 11
    ensures RenderDays([Enter(o)], t, n).0 == [Obv(o, Sentinel - n)]
    ensures forall k :: 0 <= k < n ==> RenderDays([Enter(o)], t, n).1[k] == Frame(t + k, [Obv(o, Sentinel - 1 - k)])
  {
    if n > 0 {
      Lifetime(o, t, n - 1);
      var c := [Obv(o, Sentinel - (n - 1))];
      var c' := c[0 := Fade(c[0])];
      assert c' == [Obv(o, Sentinel - n)];
      assert Iterate(c', 1) == (c', []);
      assert [c'[0]] + [] == [c'[0]];
      assert Iterate(c, 0) == ([Obv(o, Sentinel - n)], [Obv(o, Sentinel - n)]);
    }
  }

  /** ...and the twelfth frame removes it without drawing it. */
  lemma {:induction false} LifetimeEnd(o: Observation, t: int)
    ensures RenderDays([Enter(o)], t, 12).0 == []
    ensures RenderDays([Enter(o)], t, 12).1[11] == Frame(t + 11, [])
  {
    Lifetime(o, t, 11);
    var c := [Obv(o, 0)];
    assert IndexOf(c, c[0]) == 0;
    assert Iterate(c, 0) == ([], []);
  }

  /** Two observations two days apart: the first day's frame, one
      carry-forward frame, and the last day's frame with both. */
  lemma {:induction false} TwoDaysApart(o1: Observation, o3: Observation)
    requires o1.observedOn == 1 && o3.observedOn == 3
    ensures Frames([o1, o3]) == Ok([
      Frame(1, [Obv(o1, 10)]),
      Frame(2, [Obv(o1, 9)]),
      Frame(3, [Obv(o1, 8), Obv(o3, 10)])])
  {
    var obs := [o1, o3];
    assert obs[..1] == [o1] && obs[..2] == obs;
    RunSnoc(Start(obs), obs, 0);
    RunSnoc(Start(obs), obs, 1);
    assert obs[..0] == [];
    var st1 := Run(Start(obs), obs[..1]);
    assert st1 == Sched(1, [Enter(o1)], [], []);
    Lifetime(o1, 1, 2);
    var st := Run(Start(obs), obs);
    assert st == Sched(3, [Enter(o3)], [Obv(o1, 9)], [Frame(1, [Obv(o1, 10)]), Frame(2, [Obv(o1, 9)])]);
    var c := [Obv(o1, 9), Enter(o3)];
    assert st.active + st.pending == c;
    var c1 := c[0 := Fade(c[0])];
    var c2 := c1[1 := Fade(c1[1])];
    assert Iterate(c2, 2) == (c2, []);
    assert [c2[1]] + [] == [Obv(o3, 10)];
    assert Iterate(c1, 1) == (c2, [Obv(o3, 10)]);
    assert [c1[0]] + [Obv(o3, 10)] == [Obv(o1, 8), Obv(o3, 10)];
    assert Iterate(c, 0) == (c2, [Obv(o1, 8), Obv(o3, 10)]);
    RenderDaysStep(c, 3, 0);
    assert RenderDays(c, 3, 1).1 == [Frame(3, [Obv(o1, 8), Obv(o3, 10)])];
    assert Frames(obs) == Ok(st.frames + RenderDays(c, 3, 1).1);
    assert st.frames + RenderDays(c, 3, 1).1
      == [Frame(1, [Obv(o1, 10)]), Frame(2, [Obv(o1, 9)]), Frame(3, [Obv(o1, 8), Obv(o3, 10)])];
  }
}
