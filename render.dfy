/** One frame of graphics/gen_frames.py: `makeSVG` over the list of active
    observations, with opacity in integer tenths (1.1 is 11, the 0.1 step is 1,
    and the float drift of the repeated step is accounted for in `Threshold`).

    Python's `for obv in obvs_list` walks the list by index and re-reads its
    length at every step, and `obvs_list.remove(obv)` deletes the first element
    equal to `obv` while that walk is under way. `Iterate` is that walk as
    Python runs it; `Pass` is an independent description, element by element,
    of what the walk does to a list whose ids are distinct, and
    `IterateIsPass` proves the two agree. */
module Render {
  import opened PyStr

  type Rgb = (int, int, int)

  /** One record of the observation file as the renderer reads it: the day of
      `observed_on` is a day ordinal. */
  datatype Observation = Observation(id: int, location: (real, real), observedOn: int, color: Rgb)

  /** An observation in the active list: the dictionary with the opacity that
      `make_frames` appends to its colour, in tenths. */
  datatype Obv = Obv(src: Observation, opacity: int)

  /** The 1.1 that `make_frames` appends to each colour. */
  const Sentinel := 11
  /** The 0.1 that each rendered frame takes off. */
  const Step := 1
  /** `obv['color'][3] > .1` on the float that the repeated `-= 0.1` leaves.
      From 1.1 the stored value runs 1.1, 1.0, 0.9, 0.8, 0.7000000000000001,
      ..., 0.20000000000000015, 0.10000000000000014, 1.3877787807814457e-16
      in IEEE doubles: the first eleven exceed .1 and only the twelfth does
      not. In tenths those values are 11 down to 0, so the test is `> 0`: an
      observation is drawn eleven times, the last at (about) zero opacity, and
      removed in the twelfth frame. */
  const Threshold := 0

  /** An observation as `make_frames` puts it into the day's group. */
  function Enter(o: Observation): Obv {
    Obv(o, Sentinel)
  }

  /** `obv['color'][3] -= 0.1`. */
  function Fade(a: Obv): Obv {
    a.(opacity := a.opacity - Step)
  }

  /** The pieces of an SVG frame. The starter and ender templates and the
      circle's style string are opaque: a circle is given by the values its
      attributes are computed from, and the label, `AddText` of the frame's date
      in ISO form, by that date. */
  datatype Piece =
    | Starter
    | CircleEl(id: int, location: (real, real), color: Rgb, opacity: int)
    | Label(date: int)
    | Ender

  /** The markup `addText` puts in front of the label text. */
  const TextPrefix: string :=
    "<text xml:space=\"preserve\" style=\"font-style:normal;font-weight:normal;font-size:9.75123596px;line-height:1.25;"
    + "font-family:sans-serif;letter-spacing:0px;word-spacing:0px;fill:#000000;fill-opacity:1;stroke:none;stroke-"
    + "width:0.02437809\" x=\"314.22992\" y=\"323.82281\" id=\"text4456\"><tspan sodipodi:role=\"line\" id=\"tspan4454\" x=\"314.22992\" "
    + "y=\"323.82281\" style=\"font-style:normal;font-variant:normal;font-weight:normal;font-stretch:normal;font-size:"
    + "5.85074186px;font-family:Arial;-inkscape-font-specification:Arial;stroke-width:0.02437809\">"

  /** The markup `addText` puts after it. */
  const TextSuffix: string := "</tspan></text>"

  /** `addText(text)`: the text box of the frame with `text` inside it,
      whole, between the fixed opening and closing markup. */
  function AddText(text: string): (r: string)
    ensures |r| == |TextPrefix| + |text| + |TextSuffix|
    ensures r[..|TextPrefix|] == TextPrefix
    ensures r[|TextPrefix|..|TextPrefix| + |text|] == text
    ensures r[|TextPrefix| + |text|..] == TextSuffix
  {
    var r := TextPrefix + text + TextSuffix;
    assert r == TextPrefix + (text + TextSuffix);
    r
  }

  /** Different texts give different labels. */
  lemma AddTextInjective(a: string, b: string)
    requires AddText(a) == AddText(b)
    ensures a == b
  {
  }

  /** A rendered frame: its date and the observations drawn, in drawing order,
      each with the opacity it is drawn at. */
  datatype Frame = Frame(date: int, drawn: seq<Obv>)

  function CircleOf(a: Obv): Piece {
    CircleEl(a.src.id, a.src.location, a.src.color, a.opacity)
  }

  /** One circle per drawn observation, in order. */
  function Circles(drawn: seq<Obv>): (ps: seq<Piece>)
    ensures |ps| == |drawn|
    ensures forall k :: 0 <= k < |drawn| ==> ps[k] == CircleOf(drawn[k])
  {
    if drawn == [] then []
    else Circles(drawn[..|drawn| - 1]) + [CircleOf(drawn[|drawn| - 1])]
  }

  lemma {:induction false} CirclesSnoc(drawn: seq<Obv>, a: Obv)
    ensures Circles(drawn + [a]) == Circles(drawn) + [CircleOf(a)]
  {
    assert (drawn + [a])[..|drawn|] == drawn;
  }

  /** The file `makeSVG` writes: the starter, the circles, the date label, the ender. */
  function Document(f: Frame): (doc: seq<Piece>)
    ensures |doc| == |f.drawn| + 3
    ensures doc[0] == Starter && doc[|doc| - 2] == Label(f.date) && doc[|doc| - 1] == Ender
    ensures forall k :: 0 <= k < |f.drawn| ==> doc[k + 1] == CircleOf(f.drawn[k])
  {
    [Starter] + Circles(f.drawn) + [Label(f.date), Ender]
  }

  // ---------------------------------------------------------------------------
  // The loop as Python runs it
  // ---------------------------------------------------------------------------

  /** `list.remove(x)`: delete the first element equal to `x`. */
  function RemoveFirst(s: seq<Obv>, x: Obv): (r: seq<Obv>)
    requires x in s
    ensures |r| == |s| - 1
    ensures exists i :: 0 <= i < |s| && s[i] == x && x !in s[..i] && r == s[..i] + s[i + 1..]
  {
    var i := IndexOf(s, x);
    s[..i] + s[i + 1..]
  }

  /** `remove` takes away one occurrence of `x` and keeps everything else. */
  lemma RemoveFirstRemoves(s: seq<Obv>, x: Obv)
    requires x in s
    ensures multiset(RemoveFirst(s, x)) == multiset(s) - multiset{x}
  {
    var i := IndexOf(s, x);
    assert s == s[..i] + [x] + s[i + 1..];
  }

  /** The `for` loop of `makeSVG` from list index `i` on: the list it leaves
      behind and the observations it draws, in order. An element above the
      threshold is faded in place and drawn; any other is removed, and the walk
      still moves on to the next index, which now holds the element that
      followed it. */
  function Iterate(c: seq<Obv>, i: nat): (r: (seq<Obv>, seq<Obv>))
    decreases |c| - i
    ensures |r.0| <= |c|
    ensures i <= |c| ==> |r.1| <= |c| - i
  {
    if i >= |c| then (c, [])
    else if c[i].opacity > Threshold then
      var c' := c[i := Fade(c[i])];
      var rest := Iterate(c', i + 1);
      (rest.0, [c'[i]] + rest.1)
    else
      Iterate(RemoveFirst(c, c[i]), i + 1)
  }

  /** One step of the walk, with `drawn` the circles already drawn. */
  lemma {:induction false} IterateStep(c: seq<Obv>, i: nat, drawn: seq<Obv>)
    requires i < |c|
    ensures c[i].opacity > Threshold ==>
      var c' := c[i := Fade(c[i])];
      (Iterate(c, i).0, drawn + Iterate(c, i).1) == (Iterate(c', i + 1).0, (drawn + [c'[i]]) + Iterate(c', i + 1).1)
    ensures c[i].opacity <= Threshold ==>
      var c' := RemoveFirst(c, c[i]);
      (Iterate(c, i).0, drawn + Iterate(c, i).1) == (Iterate(c', i + 1).0, drawn + Iterate(c', i + 1).1)
  {
    if c[i].opacity > Threshold {
      var c' := c[i := Fade(c[i])];
      var rest := Iterate(c', i + 1);
      assert drawn + ([c'[i]] + rest.1) == (drawn + [c'[i]]) + rest.1;
    }
  }

  class ActiveSet {
    /** `all_obvs` in `make_frames`, the list `makeSVG` updates in place. */
    var obvs: seq<Obv>

    constructor ()
      ensures obvs == []
    {
      obvs := [];
    }

    /** `all_obvs.extend(more)`. */
    method Extend(more: seq<Obv>)
      modifies this
      ensures obvs == old(obvs) + more
    {
      obvs := obvs + more;
    }

    /** `makeSVG(all_obvs, current_date, save_folder, day_count)`: renders the
        frame named `current_date + day_count`, fading or removing the
        observations of the list as it goes, and returns the frame together with
        the file it writes. */
    method MakeSvg(currentDate: int, dayCount: int) returns (frame: Frame, file: seq<Piece>)
      modifies this
      ensures obvs == Iterate(old(obvs), 0).0
      ensures frame == Frame(currentDate + dayCount, Iterate(old(obvs), 0).1)
      ensures file == Document(frame)
    {
      var nextDate := currentDate + dayCount;
      file := [Starter];
      var drawn: seq<Obv> := [];
      var i: nat := 0;
      ghost var start := obvs;
      assert drawn + Iterate(obvs, i).1 == Iterate(obvs, i).1;
      while i < |obvs|
        invariant i <= |obvs| + 1
        invariant Iterate(start, 0) == (Iterate(obvs, i).0, drawn + Iterate(obvs, i).1)
        invariant file == [Starter] + Circles(drawn)
        decreases |obvs| - i
      {
        var obv := obvs[i];
        IterateStep(obvs, i, drawn);
        i := i + 1;
        if obv.opacity > Threshold {
          obvs := obvs[i - 1 := Fade(obv)];
          CirclesSnoc(drawn, obvs[i - 1]);
          drawn := drawn + [obvs[i - 1]];
          file := file + [CircleOf(obvs[i - 1])];
        } else {
          obvs := RemoveFirst(obvs, obv);
        }
      }
      file := file + [Label(nextDate), Ender];
      frame := Frame(nextDate, drawn);
    }
  }

  // ---------------------------------------------------------------------------
  // What one pass does to each element
  // ---------------------------------------------------------------------------

  /** What a frame does with one element of the list. */
  datatype Fate = Drawn | Removed | Skipped

  /** The fate of each element of `s` in one pass; `skip` says whether the
      element just before `s` was removed. */
  function Fates(s: seq<Obv>, skip: bool): (f: seq<Fate>)
    ensures |f| == |s|
  {
    if s == [] then []
    else
      var first := if skip then Skipped else if s[0].opacity > Threshold then Drawn else Removed;
      [first] + Fates(s[1..], first == Removed)
  }

  /** An element is skipped exactly when the one before it was removed, and
      drawn exactly when it is not skipped and still above the threshold. */
  lemma {:induction false} FatesRules(s: seq<Obv>, skip: bool)
    ensures var f := Fates(s, skip);
      forall j :: 0 <= j < |s| ==>
        && (f[j] == Skipped <==> if j == 0 then skip else f[j - 1] == Removed)
        && (f[j] == Drawn <==> f[j] != Skipped && s[j].opacity > Threshold)
  {
    if s != [] {
      var first := if skip then Skipped else if s[0].opacity > Threshold then Drawn else Removed;
      FatesRules(s[1..], first == Removed);
      var f := Fates(s, skip);
      assert f == [first] + Fates(s[1..], first == Removed);
      forall j | 1 <= j < |s|
        ensures f[j] == Fates(s[1..], first == Removed)[j - 1] && s[j] == s[1..][j - 1]
      {
      }
    }
  }

  /** The element as the list holds it after its fate. */
  function After(a: Obv, fate: Fate): Obv {
    if fate == Drawn then Fade(a) else a
  }

  /** The list after the pass: every element that was not removed, in order. */
  function Kept(s: seq<Obv>, f: seq<Fate>): seq<Obv>
    requires |f| == |s|
  {
    if s == [] then []
    else (if f[0] == Removed then [] else [After(s[0], f[0])]) + Kept(s[1..], f[1..])
  }

  /** What the pass draws: every drawn element, faded, in order. */
  function DrawnOf(s: seq<Obv>, f: seq<Fate>): seq<Obv>
    requires |f| == |s|
  {
    if s == [] then []
    else (if f[0] == Drawn then [Fade(s[0])] else []) + DrawnOf(s[1..], f[1..])
  }

  /** One pass over the whole list: the list left behind and what is drawn. */
  function Pass(s: seq<Obv>): (seq<Obv>, seq<Obv>) {
    var f := Fates(s, false);
    (Kept(s, f), DrawnOf(s, f))
  }

  predicate DistinctIds(s: seq<Obv>) {
    forall j, k :: 0 <= j < k < |s| ==> s[j].src.id != s[k].src.id
  }

  lemma {:induction false} RemoveFirstDistinct(c: seq<Obv>, i: nat)
    requires i < |c| && DistinctIds(c)
    ensures RemoveFirst(c, c[i]) == c[..i] + c[i + 1..]
    ensures DistinctIds(c[..i] + c[i + 1..])
  {
    assert forall j :: 0 <= j < i ==> c[j] != c[i];
    assert c[i] !in c[..i];
    assert c[i] in c[..i + 1] by { assert c[..i + 1][i] == c[i]; }
    assert IndexOf(c, c[i]) == i;
    var r := c[..i] + c[i + 1..];
    forall j, l | 0 <= j < l < |r| ensures r[j].src.id != r[l].src.id {
      var j' := if j < i then j else j + 1;
      var l' := if l < i then l else l + 1;
      assert r[j] == c[j'] && r[l] == c[l'];
    }
  }

  /** A pass whose first element is drawn. */
  lemma {:induction false} PassDrawnFirst(t: seq<Obv>)
    requires |t| > 0 && t[0].opacity > Threshold
    ensures Kept(t, Fates(t, false)) == [Fade(t[0])] + Kept(t[1..], Fates(t[1..], false))
    ensures DrawnOf(t, Fates(t, false)) == [Fade(t[0])] + DrawnOf(t[1..], Fates(t[1..], false))
  {
    var f := Fates(t, false);
    assert f == [Drawn] + Fates(t[1..], false);
    assert f[1..] == Fates(t[1..], false);
  }

  /** A pass whose first element is removed: the second is skipped. */
  lemma {:induction false} PassRemovedFirst(t: seq<Obv>)
    requires |t| > 0 && t[0].opacity <= Threshold
    ensures |t| == 1 ==> Kept(t, Fates(t, false)) == [] && DrawnOf(t, Fates(t, false)) == []
    ensures |t| > 1 ==> Kept(t, Fates(t, false)) == [t[1]] + Kept(t[2..], Fates(t[2..], false))
    ensures |t| > 1 ==> DrawnOf(t, Fates(t, false)) == DrawnOf(t[2..], Fates(t[2..], false))
  {
    var f := Fates(t, false);
    assert f == [Removed] + Fates(t[1..], true);
    assert f[1..] == Fates(t[1..], true);
    if |t| > 1 {
      var u := t[1..];
      assert u[0] == t[1] && u[1..] == t[2..];
      var g := Fates(u, true);
      assert g == [Skipped] + Fates(t[2..], false);
      assert g[1..] == Fates(t[2..], false);
    }
  }

  /** For a list with distinct ids, Python's walk from index `i` leaves the
      first `i` elements alone and does to the rest what `Pass` describes. */
  lemma {:induction false} IterateFrom(c: seq<Obv>, i: nat)
    requires i <= |c|
    requires DistinctIds(c)
    decreases |c| - i, 1
    ensures Iterate(c, i).0 == c[..i] + Kept(c[i..], Fates(c[i..], false))
    ensures Iterate(c, i).1 == DrawnOf(c[i..], Fates(c[i..], false))
  {
    if i == |c| {
      assert c[..i] == c;
      assert c[i..] == [];
    } else if c[i].opacity > Threshold {
      IterateFromDrawn(c, i);
    } else {
      IterateFromRemoved(c, i);
    }
  }

  lemma {:induction false} IterateFromDrawn(c: seq<Obv>, i: nat)
    requires i < |c| && c[i].opacity > Threshold
    requires DistinctIds(c)
    decreases |c| - i, 0
    ensures Iterate(c, i).0 == c[..i] + Kept(c[i..], Fates(c[i..], false))
    ensures Iterate(c, i).1 == DrawnOf(c[i..], Fates(c[i..], false))
  {
    var t := c[i..];
    assert t[0] == c[i] && t[1..] == c[i + 1..];
    var c' := c[i := Fade(c[i])];
    assert DistinctIds(c');
    IterateFrom(c', i + 1);
    assert c'[..i + 1] == c[..i] + [Fade(c[i])];
    assert c'[i + 1..] == c[i + 1..];
    PassDrawnFirst(t);
  }

  /** The list with element `i` removed, split after its new element `i`. */
  lemma RemovedAt(c: seq<Obv>, i: nat)
    requires i + 1 < |c|
    ensures (c[..i] + c[i + 1..])[..i + 1] == c[..i] + [c[i + 1]]
    ensures (c[..i] + c[i + 1..])[i + 1..] == c[i + 2..]
  {
    var c' := c[..i] + c[i + 1..];
    assert forall k :: i + 1 <= k < |c'| ==> c'[k] == c[k + 1];
  }

  lemma {:induction false} IterateFromRemoved(c: seq<Obv>, i: nat)
    requires i < |c| && c[i].opacity <= Threshold
    requires DistinctIds(c)
    decreases |c| - i, 0
    ensures Iterate(c, i).0 == c[..i] + Kept(c[i..], Fates(c[i..], false))
    ensures Iterate(c, i).1 == DrawnOf(c[i..], Fates(c[i..], false))
  {
    RemoveFirstDistinct(c, i);
    var c' := c[..i] + c[i + 1..];
    assert Iterate(c, i) == Iterate(c', i + 1);
    if i + 1 < |c| {
      IterateFrom(c', i + 1);
      RemovedPass(c, i);
    } else {
      var t := c[i..];
      assert t == [c[i]];
      PassRemovedFirst(t);
      assert c' == c[..i];
    }
  }

  /** Removing element `i` and passing over what follows its successor is
      passing over the list from `i` on. */
  lemma RemovedPass(c: seq<Obv>, i: nat)
    requires i + 1 < |c| && c[i].opacity <= Threshold
    ensures var c' := c[..i] + c[i + 1..];
      && c'[..i + 1] + Kept(c'[i + 1..], Fates(c'[i + 1..], false)) == c[..i] + Kept(c[i..], Fates(c[i..], false))
      && DrawnOf(c'[i + 1..], Fates(c'[i + 1..], false)) == DrawnOf(c[i..], Fates(c[i..], false))
  {
    RemovedAt(c, i);
    var rest := c[i + 2..];
    var k2 := Kept(rest, Fates(rest, false));
    var t := c[i..];
    assert t[0] == c[i] && t[1] == c[i + 1] && t[2..] == rest;
    PassRemovedFirst(t);
    assert Kept(t, Fates(t, false)) == [c[i + 1]] + k2;
    assert (c[..i] + [c[i + 1]]) + k2 == c[..i] + ([c[i + 1]] + k2);
  }

  /** `makeSVG` on a list with distinct ids does exactly what `Pass` says. */
  lemma {:induction false} IterateIsPass(c: seq<Obv>)
    requires DistinctIds(c)
    ensures Iterate(c, 0) == Pass(c)
  {
    IterateFrom(c, 0);
    assert c[0..] == c;
    assert c[..0] == [];
    var f := Fates(c, false);
    assert Iterate(c, 0).0 == Kept(c, f);
    assert Iterate(c, 0).1 == DrawnOf(c, f);
  }

  // ---------------------------------------------------------------------------
  // Which elements a pass keeps and draws
  // ---------------------------------------------------------------------------

  /** The positions whose fate is in `keep`, in increasing order. */
  function Positions(f: seq<Fate>, keep: set<Fate>): (ps: seq<nat>)
    ensures forall m :: 0 <= m < |ps| ==> ps[m] < |f| && f[ps[m]] in keep
    ensures forall m, n :: 0 <= m < n < |ps| ==> ps[m] < ps[n]
    ensures forall j :: 0 <= j < |f| && f[j] in keep ==> j in ps
  {
    if f == [] then []
    else
      var init := f[..|f| - 1];
      assert forall j :: 0 <= j < |init| ==> init[j] == f[j];
      Positions(init, keep) + (if f[|f| - 1] in keep then [|f| - 1] else [])
  }

  lemma {:induction false} KeptSnoc(s: seq<Obv>, f: seq<Fate>, x: Obv, g: Fate)
    requires |f| == |s|
    ensures Kept(s + [x], f + [g]) == Kept(s, f) + (if g == Removed then [] else [After(x, g)])
  {
    if s != [] {
      assert (s + [x])[1..] == s[1..] + [x];
      assert (f + [g])[1..] == f[1..] + [g];
      KeptSnoc(s[1..], f[1..], x, g);
    }
  }

  lemma {:induction false} DrawnSnoc(s: seq<Obv>, f: seq<Fate>, x: Obv, g: Fate)
    requires |f| == |s|
    ensures DrawnOf(s + [x], f + [g]) == DrawnOf(s, f) + (if g == Drawn then [Fade(x)] else [])
  {
    if s != [] {
      assert (s + [x])[1..] == s[1..] + [x];
      assert (f + [g])[1..] == f[1..] + [g];
      DrawnSnoc(s[1..], f[1..], x, g);
    }
  }

  lemma {:induction false} KeptAt(s: seq<Obv>, f: seq<Fate>)
    requires |f| == |s|
    ensures var ps := Positions(f, {Drawn, Skipped});
      |Kept(s, f)| == |ps| &&
      forall m :: 0 <= m < |ps| ==> Kept(s, f)[m] == After(s[ps[m]], f[ps[m]])
  {
    if s != [] {
      var n := |s| - 1;
      assert s == s[..n] + [s[n]] && f == f[..n] + [f[n]];
      KeptAt(s[..n], f[..n]);
      KeptSnoc(s[..n], f[..n], s[n], f[n]);
    }
  }

  lemma {:induction false} DrawnAt(s: seq<Obv>, f: seq<Fate>)
    requires |f| == |s|
    ensures var ps := Positions(f, {Drawn});
      |DrawnOf(s, f)| == |ps| &&
      forall m :: 0 <= m < |ps| ==> DrawnOf(s, f)[m] == Fade(s[ps[m]])
  {
    if s != [] {
      var n := |s| - 1;
      assert s == s[..n] + [s[n]] && f == f[..n] + [f[n]];
      DrawnAt(s[..n], f[..n]);
      DrawnSnoc(s[..n], f[..n], s[n], f[n]);
    }
  }

  /** The frame `makeSVG` renders from a list with distinct ids: the list it
      leaves holds exactly the elements that were not removed, in their order,
      the drawn ones faded; the frame draws exactly the drawn ones, in order,
      each at its decremented opacity. */
  lemma {:induction false} FrameContents(c: seq<Obv>)
    requires DistinctIds(c)
    ensures var f := Fates(c, false);
      var kept := Positions(f, {Drawn, Skipped});
      var drawn := Positions(f, {Drawn});
      && |Iterate(c, 0).0| == |kept|
      && (forall m :: 0 <= m < |kept| ==> Iterate(c, 0).0[m] == After(c[kept[m]], f[kept[m]]))
      && |Iterate(c, 0).1| == |drawn|
      && (forall m :: 0 <= m < |drawn| ==> Iterate(c, 0).1[m] == Fade(c[drawn[m]]))
  {
    IterateIsPass(c);
    KeptAt(c, Fates(c, false));
    DrawnAt(c, Fates(c, false));
  }

  /** An element above the threshold that does not follow a removed one is
      drawn at its opacity less one step, and stays in the list so faded. */
  lemma {:induction false} DrawnOnce(c: seq<Obv>, j: nat)
    requires DistinctIds(c) && j < |c|
    requires c[j].opacity > Threshold
    requires j == 0 || Fates(c, false)[j - 1] != Removed
    ensures Fade(c[j]) in Iterate(c, 0).1
    ensures Fade(c[j]) in Iterate(c, 0).0
  {
    FatesRules(c, false);
    var f := Fates(c, false);
    assert f[j] == Drawn;
    FrameContents(c);
    var kept := Positions(f, {Drawn, Skipped});
    var drawn := Positions(f, {Drawn});
    assert j in kept && j in drawn;
    var m :| 0 <= m < |kept| && kept[m] == j;
    assert Iterate(c, 0).0[m] == Fade(c[j]);
    var n :| 0 <= n < |drawn| && drawn[n] == j;
    assert Iterate(c, 0).1[n] == Fade(c[j]);
  }

  /** An element at or below the threshold that does not follow a removed one
      is removed: no element with its id is left in the list or drawn. */
  lemma {:induction false} RemovedOnce(c: seq<Obv>, j: nat)
    requires DistinctIds(c) && j < |c|
    requires c[j].opacity <= Threshold
    requires j == 0 || Fates(c, false)[j - 1] != Removed
    ensures forall a :: a in Iterate(c, 0).0 ==> a.src.id != c[j].src.id
    ensures forall a :: a in Iterate(c, 0).1 ==> a.src.id != c[j].src.id
  {
    FatesRules(c, false);
    var f := Fates(c, false);
    assert f[j] == Removed;
    FrameContents(c);
    NotKeptThere(c, f, j, Iterate(c, 0).0);
    NotDrawnThere(c, f, j, Iterate(c, 0).1);
  }

  /** The element right after a removed one is skipped in that frame: it stays
      in the list unchanged and nothing with its id is drawn. */
  lemma {:induction false} SkippedAfterRemoval(c: seq<Obv>, j: nat)
    requires DistinctIds(c) && 0 < j < |c|
    requires Fates(c, false)[j - 1] == Removed
    ensures c[j] in Iterate(c, 0).0
    ensures forall a :: a in Iterate(c, 0).1 ==> a.src.id != c[j].src.id
  {
    FatesRules(c, false);
    var f := Fates(c, false);
    assert f[j] == Skipped;
    FrameContents(c);
    var kept := Positions(f, {Drawn, Skipped});
    assert j in kept;
    var m :| 0 <= m < |kept| && kept[m] == j;
    assert Iterate(c, 0).0[m] == c[j];
    NotDrawnThere(c, f, j, Iterate(c, 0).1);
  }

  /** Nothing drawn from positions given by `Positions(f, {Drawn})` has the
      id of an element at a position that is not drawn. */
  lemma {:induction false} NotDrawnThere(c: seq<Obv>, f: seq<Fate>, j: nat, out: seq<Obv>)
    requires DistinctIds(c) && j < |c| && |f| == |c| && f[j] != Drawn
    requires var ps := Positions(f, {Drawn});
      |out| == |ps| && forall m :: 0 <= m < |ps| ==> out[m] == Fade(c[ps[m]])
    ensures forall a :: a in out ==> a.src.id != c[j].src.id
  {
    var ps := Positions(f, {Drawn});
    forall a | a in out ensures a.src.id != c[j].src.id {
      var n :| 0 <= n < |out| && out[n] == a;
      assert f[ps[n]] == Drawn;
    }
  }

  /** What is kept from position `k` has the source of `c[k]`, and `k` is not
      the removed position `j`. */
  lemma KeptNotRemoved(c: seq<Obv>, f: seq<Fate>, j: nat, k: nat)
    requires DistinctIds(c) && j < |c| && |f| == |c| && f[j] == Removed
    requires k < |f| && f[k] in {Drawn, Skipped}
    ensures After(c[k], f[k]).src.id != c[j].src.id
  {
    assert k != j;
  }

  /** Nothing kept from positions given by `Positions(f, {Drawn, Skipped})` has
      the id of a removed element. */
  lemma {:induction false} NotKeptThere(c: seq<Obv>, f: seq<Fate>, j: nat, out: seq<Obv>)
    requires DistinctIds(c) && j < |c| && |f| == |c| && f[j] == Removed
    requires var ps := Positions(f, {Drawn, Skipped});
      |out| == |ps| && forall m :: 0 <= m < |ps| ==> out[m] == After(c[ps[m]], f[ps[m]])
    ensures forall a :: a in out ==> a.src.id != c[j].src.id
  {
    var ps := Positions(f, {Drawn, Skipped});
    forall n | 0 <= n < |out| ensures out[n].src.id != c[j].src.id {
      KeptNotRemoved(c, f, j, ps[n]);
    }
  }

  /** A newly added observation enters at the sentinel, so the first frame that
      reaches it draws it at ten tenths. */
  lemma {:induction false} FirstRenderAtTen(c: seq<Obv>, j: nat, o: Observation)
    requires DistinctIds(c) && j < |c| && c[j] == Enter(o)
    requires j == 0 || Fates(c, false)[j - 1] != Removed
    ensures Obv(o, 10) in Iterate(c, 0).1
  {
    DrawnOnce(c, j);
    assert Fade(c[j]) == Obv(o, 10);
  }

  /** Removal followed by a skip, on a concrete list: the first element, at
      the end of its life, is removed and the second, although above the
      threshold, is neither drawn nor faded. */
  lemma {:induction false} SkipExample(o1: Observation, o2: Observation)
    requires o1.id != o2.id
    ensures Iterate([Obv(o1, 0), Obv(o2, 5)], 0) == ([Obv(o2, 5)], [])
  {
    var c := [Obv(o1, 0), Obv(o2, 5)];
    assert IndexOf(c, c[0]) == 0;
    assert RemoveFirst(c, c[0]) == [Obv(o2, 5)];
  }

  // ---------------------------------------------------------------------------
  // Where drawn observations come from, and their opacities
  // ---------------------------------------------------------------------------

  /** Entries of an active list on day `t`: each comes from `obs`, was observed
      on or before `t`, and holds an opacity between the threshold and the sentinel. */
  predicate Stored(s: seq<Obv>, obs: seq<Observation>, t: int) {
    forall a :: a in s ==> a.src in obs && a.src.observedOn <= t && Threshold <= a.opacity <= Sentinel
  }

  /** What a frame on day `t` may draw: as `Stored`, at most one step below the sentinel. */
  predicate Drawable(s: seq<Obv>, obs: seq<Observation>, t: int) {
    forall a :: a in s ==> a.src in obs && a.src.observedOn <= t && Threshold <= a.opacity <= Sentinel - Step
  }

  /** The walk keeps `Stored` and only draws what is `Drawable`; it needs no
      distinct ids. */
  lemma {:induction false} IterateKeeps(c: seq<Obv>, i: nat, obs: seq<Observation>, t: int)
    requires Stored(c, obs, t)
    decreases |c| - i
    ensures Stored(Iterate(c, i).0, obs, t)
    ensures Drawable(Iterate(c, i).1, obs, t)
  {
    if i < |c| {
      if c[i].opacity > Threshold {
        var c' := c[i := Fade(c[i])];
        forall a | a in c' ensures a.src in obs && a.src.observedOn <= t && Threshold <= a.opacity <= Sentinel {
          var k :| 0 <= k < |c'| && c'[k] == a;
          assert k != i ==> a == c[k];
        }
        IterateKeeps(c', i + 1, obs, t);
      } else {
        var c' := RemoveFirst(c, c[i]);
        RemoveFirstRemoves(c, c[i]);
        forall a | a in c' ensures a in c {
          assert a in multiset(c');
        }
        IterateKeeps(c', i + 1, obs, t);
      }
    }
  }

  lemma {:induction false} StoredLater(s: seq<Obv>, obs: seq<Observation>, t: int, u: int)
    requires Stored(s, obs, t) && t <= u
    ensures Stored(s, obs, u)
  {
  }

  lemma {:induction false} DrawableLater(s: seq<Obv>, obs: seq<Observation>, t: int, u: int)
    requires Drawable(s, obs, t) && t <= u
    ensures Drawable(s, obs, u)
  {
  }
}
