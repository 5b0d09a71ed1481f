/** The `[CONTROLS]` rewriting of the EPANET exporter (`to_stream`): while
    the saved `.inp` file is copied line by line, the CONTROLS header is
    followed by time-based control statements generated from each link's
    setting and status boundary series.

    Statements are kept as values, not text: the hour offsets, the number
    formatting and the file round trip are not modelled. */
module EpanetControls {
  import opened IntSets
  import opened Points
  import opened BufferTier
  import opened EpanetSections

  /** One `LINK <name> ... AT TIME <hrs>` statement: a status (`OPEN` or
      `CLOSED`) or a setting value. */
  datatype Control = LinkStatus(time: int, open: bool) | LinkSetting(time: int, value: int)

  /** A pipe, pump or valve with its boundary series over the export range
      (an absent boundary is an empty series). */
  datatype Link = Link(name: string, settings: seq<Point>, statuses: seq<Point>)

  /** The statements written for one link after its comment line. */
  datatype Block = Block(link: string, controls: seq<Control>)

  /** `std::max(0.0, v)`. */
  function Clamp(v: int): (c: int)
    ensures 0 <= c && v <= c
    ensures c == v || c == 0
  {
    if v < 0 then 0 else v
  }

  /** `isOpen = point.value`: a status value is "open" unless it is zero. */
  predicate IsOpenValue(v: int) {
    v != 0
  }

  /** `controlTimes`: every time with a setting or a status, ascending. */
  function ControlTimes(settings: Series, statuses: Series): (ts: seq<int>)
    ensures StrictlyIncreasing(ts)
    ensures forall t :: t in ts <==> t in settings || t in statuses
    ensures |ts| == |settings.Keys + statuses.Keys|
  {
    Sorted(settings.Keys + statuses.Keys)
  }

  /** `isOpen` after the loop has handled the times `ts`. */
  function OpenAfter(statuses: Series, ts: seq<int>): bool {
    if ts == [] then true
    else
      var t := ts[|ts| - 1];
      if t in statuses then IsOpenValue(statuses[t].value) else OpenAfter(statuses, ts[..|ts| - 1])
  }

  /** Whether the link is open just before `t`: the latest earlier status
      decides, and a link with no earlier status is open. */
  function OpenBefore(statuses: Series, t: int): bool {
    match LastBelow(statuses.Keys, t)
    case None => true
    case Some(k) => IsOpenValue(statuses[k].value)
  }

  /** Whether the link is open at `t`, once a status at `t` is applied. */
  function OpenAt(statuses: Series, t: int): bool {
    if t in statuses then IsOpenValue(statuses[t].value) else OpenBefore(statuses, t)
  }

  /** The setting re-established when the link is opened at `t` without a
      setting of its own: the one with the greatest time before `t`. */
  function PreviousSetting(settings: Series, t: int): (s: Option<int>)
    ensures s.Some? <==> exists k :: k in settings && k < t
    ensures s.Some? ==> s.value == settings[LastBelow(settings.Keys, t).value].value
  {
    match LastBelow(settings.Keys, t)
    case None => None
    case Some(k) => Some(settings[k].value)
  }

  /** The statements for control time `t` when the link was open
      (`wasOpen`) before it: the status, if there is one, then a setting
      while the link is open. */
  function StatementsAt(settings: Series, statuses: Series, t: int, wasOpen: bool): (cs: seq<Control>)
    ensures forall i :: 0 <= i < |cs| ==> cs[i].time == t
  {
    var isOpen := if t in statuses then IsOpenValue(statuses[t].value) else wasOpen;
    var status := if t in statuses then [LinkStatus(t, isOpen)] else [];
    var setting :=
      if !isOpen then []
      else if t in settings then [LinkSetting(t, Clamp(settings[t].value))]
      else if t in statuses && PreviousSetting(settings, t).Some? then
        [LinkSetting(t, Clamp(PreviousSetting(settings, t).value))]
      else [];
    status + setting
  }

  /** The statements for the control times `ts`, in order. */
  function Schedule(settings: Series, statuses: Series, ts: seq<int>): seq<Control> {
    if ts == [] then []
    else
      var init := ts[..|ts| - 1];
      Schedule(settings, statuses, init) + StatementsAt(settings, statuses, ts[|ts| - 1], OpenAfter(statuses, init))
  }

  /** The statements for a link with these maps. */
  function LinkSchedule(settings: Series, statuses: Series): seq<Control> {
    Schedule(settings, statuses, ControlTimes(settings, statuses))
  }

  /** `settingPointMap` / `statusPointMap`: a series indexed by time, a later
      point replacing an earlier one at the same time. */
  function TimeMap(ps: seq<Point>): (m: Series)
    ensures m.Keys == TimesOf(ps)
    ensures SeriesConsistent(m)
  {
    Upsert(map[], ps)
  }

  /** The block written for a link: none when it has no control time. */
  function LinkBlock(link: Link): Option<Block> {
    var settings, statuses := TimeMap(link.settings), TimeMap(link.statuses);
    if |ControlTimes(settings, statuses)| > 0 then Some(Block(link.name, LinkSchedule(settings, statuses)))
    else None
  }

  /** The blocks written for the links, in order. */
  function Blocks(links: seq<Link>): (bs: seq<Block>)
    ensures |bs| <= |links|
  {
    if links == [] then []
    else
      var init := links[..|links| - 1];
      Blocks(init) + AsList(LinkBlock(links[|links| - 1]))
  }

  function AsList(b: Option<Block>): (bs: seq<Block>)
    ensures |bs| <= 1
  {
    match b
    case None => []
    case Some(x) => [x]
  }

  /** A line of the rewritten file: a copied line, an empty line, the
      `; RTX Time-Based Control for <name>` comment, or a statement. */
  datatype OutLine = Copied(text: string) | Blank | Comment(link: string) | Statement(link: string, control: Control)

  /** A block as lines: an empty line, the comment, the statements. */
  function BlockLines(b: Block): (ls: seq<OutLine>)
    ensures |ls| == |b.controls| + 2
    ensures forall i :: 0 <= i < |ls| ==> !ls[i].Copied?
  {
    [Blank, Comment(b.link)] + seq(|b.controls|, i requires 0 <= i < |b.controls| => Statement(b.link, b.controls[i]))
  }

  function BlocksLines(bs: seq<Block>): (ls: seq<OutLine>)
    ensures forall i :: 0 <= i < |ls| ==> !ls[i].Copied?
  {
    if bs == [] then []
    else
      var prev, last := BlocksLines(bs[..|bs| - 1]), BlockLines(bs[|bs| - 1]);
      assert forall i :: |prev| <= i < |prev| + |last| ==> (prev + last)[i] == last[i - |prev|];
      prev + last
  }

  /** What one input line becomes: the CONTROLS header is copied and
      followed by two empty lines and the links' blocks. */
  function LineOutput(line: string, links: seq<Link>): seq<OutLine> {
    if SectionFromLine(line) == Controls then [Copied(line), Blank, Blank] + BlocksLines(Blocks(links))
    else [Copied(line)]
  }

  /** The rewritten file. */
  function Rewritten(lines: seq<string>, links: seq<Link>): seq<OutLine> {
    if lines == [] then []
    else Rewritten(lines[..|lines| - 1], links) + LineOutput(lines[|lines| - 1], links)
  }

  /** The copied lines of an output, in order. */
  function CopiedTexts(out: seq<OutLine>): seq<string> {
    if out == [] then []
    else CopiedTexts(out[..|out| - 1]) + match out[|out| - 1] case Copied(text) => [text] case _ => []
  }

  /** A nonempty sequence is its front and its last element. */
  lemma LastSplit<T>(s: seq<T>)
    requires s != []
    ensures s == s[..|s| - 1] + [s[|s| - 1]]
  {
  }

  lemma Regroup<T>(x: T, y: T, z: T, s: seq<T>)
    ensures [x, y, z] + s == [x] + ([y, z] + s)
  {
  }

  /** Two elements of a property put before elements of that property. */
  lemma PrefixPreserves<T>(x: T, y: T, s: seq<T>, p: T -> bool)
    requires p(x) && p(y) && forall i :: 0 <= i < |s| ==> p(s[i])
    ensures forall i :: 0 <= i < |[x, y] + s| ==> p(([x, y] + s)[i])
  {
    assert forall i :: 2 <= i < |[x, y] + s| ==> ([x, y] + s)[i] == s[i - 2];
  }

  /** One more element of a prefix. */
  lemma TakeOneMore<T>(s: seq<T>, i: nat)
    requires i < |s|
    ensures s[..i + 1] == s[..i] + [s[i]]
  {
  }

  lemma ScheduleSnoc(settings: Series, statuses: Series, ts: seq<int>, t: int)
    ensures Schedule(settings, statuses, ts + [t]) ==
      Schedule(settings, statuses, ts) + StatementsAt(settings, statuses, t, OpenAfter(statuses, ts))
    ensures OpenAfter(statuses, ts + [t]) == if t in statuses then IsOpenValue(statuses[t].value) else OpenAfter(statuses, ts)
  {
    assert (ts + [t])[..|ts|] == ts;
  }

  lemma BlocksSnoc(links: seq<Link>, link: Link)
    ensures Blocks(links + [link]) == Blocks(links) + AsList(LinkBlock(link))
  {
    assert (links + [link])[..|links|] == links;
  }

  lemma BlocksLinesSnoc(bs: seq<Block>, b: Block)
    ensures BlocksLines(bs + [b]) == BlocksLines(bs) + BlockLines(b)
  {
    assert (bs + [b])[..|bs|] == bs;
  }

  lemma RewrittenSnoc(lines: seq<string>, line: string, links: seq<Link>)
    ensures Rewritten(lines + [line], links) == Rewritten(lines, links) + LineOutput(line, links)
  {
    assert (lines + [line])[..|lines|] == lines;
  }

  // ---------------------------------------------------------------------
  // The loops of `to_stream`

  /** The loop filling `settingPointMap` or `statusPointMap`. */
  method IndexByTime(ps: seq<Point>) returns (m: Series)
    ensures m == TimeMap(ps)
  {
    m := map[];
    for i := 0 to |ps|
      invariant Upsert(m, ps[i..]) == Upsert(map[], ps)
    {
      assert ps[i..][1..] == ps[i + 1..];
      m := m[ps[i].time := ps[i]];
    }
  }

  /** One iteration of the loop over `controlTimes`: the statements for
      time `t`, and `isOpen` after them. */
  method ControlsAtTime(settings: Series, statuses: Series, t: int, wasOpen: bool)
    returns (emitted: seq<Control>, isOpen: bool)
    ensures emitted == StatementsAt(settings, statuses, t, wasOpen)
    ensures isOpen == if t in statuses then IsOpenValue(statuses[t].value) else wasOpen
  {
    isOpen := wasOpen;
    var statusUpdate := false;
    var status: seq<Control> := [];
    var setting: seq<Control> := [];
    if t in statuses {
      statusUpdate := true;
      isOpen := IsOpenValue(statuses[t].value);
      status := [LinkStatus(t, isOpen)];
    }
    if isOpen {
      if t in settings {
        setting := [LinkSetting(t, Clamp(settings[t].value))];
      } else if statusUpdate {
        var previous := PreviousSetting(settings, t);
        if previous.Some? {
          setting := [LinkSetting(t, Clamp(previous.value))];
        }
      }
    }
    emitted := status + setting;
  }

  /** The statements for one link: its control times, then the loop over
      them (`isOpen` starts true). */
  method LinkControls(settings: Series, statuses: Series) returns (controls: seq<Control>)
    ensures controls == LinkSchedule(settings, statuses)
  {
    var times := ControlTimes(settings, statuses);
    controls := ControlsForTimes(settings, statuses, times);
  }

  /** The loop over `controlTimes`, given the times. */
  method ControlsForTimes(settings: Series, statuses: Series, times: seq<int>) returns (controls: seq<Control>)
    ensures controls == Schedule(settings, statuses, times)
  {
    var isOpen := true;
    controls := [];
    for i := 0 to |times|
      invariant controls == Schedule(settings, statuses, times[..i])
      invariant isOpen == OpenAfter(statuses, times[..i])
    {
      var t := times[i];
      TakeOneMore(times, i);
      ScheduleSnoc(settings, statuses, times[..i], t);
      var emitted;
      emitted, isOpen := ControlsAtTime(settings, statuses, t, isOpen);
      controls := controls + emitted;
    }
    assert times[..|times|] == times;
  }

  /** One iteration of the loop over `pipes`. */
  method LinkControlBlock(link: Link) returns (block: Option<Block>)
    ensures block == LinkBlock(link)
  {
    var settings := IndexByTime(link.settings);
    var statuses := IndexByTime(link.statuses);
    var times := ControlTimes(settings, statuses);
    block := None;
    if |times| > 0 {
      var controls := LinkControls(settings, statuses);
      block := Some(Block(link.name, controls));
    }
  }

  /** The statements written after the CONTROLS header: pipes, then
      pumps, then valves. */
  method ControlBlocks(pipes: seq<Link>, pumps: seq<Link>, valves: seq<Link>) returns (blocks: seq<Block>)
    ensures blocks == Blocks(pipes + pumps + valves)
  {
    var links := pipes + pumps + valves;
    blocks := [];
    for i := 0 to |links|
      invariant blocks == Blocks(links[..i])
    {
      TakeOneMore(links, i);
      BlocksSnoc(links[..i], links[i]);
      var block := LinkControlBlock(links[i]);
      if block.Some? {
        blocks := blocks + [block.value];
      }
    }
    assert links[..|links|] == links;
  }

  /** The text written for the blocks, one after the other. */
  method WriteBlocks(blocks: seq<Block>) returns (written: seq<OutLine>)
    ensures written == BlocksLines(blocks)
  {
    written := [];
    for j := 0 to |blocks|
      invariant written == BlocksLines(blocks[..j])
    {
      TakeOneMore(blocks, j);
      BlocksLinesSnoc(blocks[..j], blocks[j]);
      written := written + BlockLines(blocks[j]);
    }
    assert blocks[..|blocks|] == blocks;
  }

  /** The loop over the lines of the saved file. */
  method RewriteInp(lines: seq<string>, pipes: seq<Link>, pumps: seq<Link>, valves: seq<Link>)
    returns (out: seq<OutLine>)
    ensures out == Rewritten(lines, pipes + pumps + valves)
  {
    out := [];
    for i := 0 to |lines|
      invariant out == Rewritten(lines[..i], pipes + pumps + valves)
    {
      var line := lines[i];
      TakeOneMore(lines, i);
      RewrittenSnoc(lines[..i], line, pipes + pumps + valves);
      var written;
      if SectionFromLine(line) == Controls {
        var blocks := ControlBlocks(pipes, pumps, valves);
        var statements := WriteBlocks(blocks);
        written := [Copied(line), Blank, Blank] + statements;
      } else {
        written := [Copied(line)];
      }
      out := out + written;
    }
    assert lines[..|lines|] == lines;
  }

  // ---------------------------------------------------------------------
  // What the generated statements say

  /** The statements of `cs` at time `t`, in order. */
  function AtTime(cs: seq<Control>, t: int): (r: seq<Control>)
    ensures forall c :: c in r <==> c in cs && c.time == t
  {
    if cs == [] then []
    else
      var init, last := cs[..|cs| - 1], cs[|cs| - 1];
      assert cs == init + [last];
      AtTime(init, t) + (if last.time == t then [last] else [])
  }

  lemma {:induction false} AtTimeAppend(a: seq<Control>, b: seq<Control>, t: int)
    ensures AtTime(a + b, t) == AtTime(a, t) + AtTime(b, t)
    decreases |b|
  {
    if b == [] {
      assert a + b == a;
    } else {
      var init, last := b[..|b| - 1], b[|b| - 1];
      assert (a + b)[..|a + b| - 1] == a + init;
      assert (a + b)[|a + b| - 1] == last;
      AtTimeAppend(a, init, t);
      var tail := if last.time == t then [last] else [];
      assert AtTime(a, t) + AtTime(init, t) + tail == AtTime(a, t) + (AtTime(init, t) + tail);
    }
  }

  /** Statements all at one time are kept whole at that time and dropped
      at any other. */
  lemma {:induction false} AtTimeUniform(cs: seq<Control>, t: int, u: int)
    requires forall i :: 0 <= i < |cs| ==> cs[i].time == t
    ensures AtTime(cs, u) == if u == t then cs else []
    decreases |cs|
  {
    if cs != [] {
      var init := cs[..|cs| - 1];
      AtTimeUniform(init, t, u);
      assert cs == init + [cs[|cs| - 1]];
    }
  }

  /** Over strictly increasing times, a time that is not among them has
      no statements. */
  lemma {:induction false} ScheduleAtOtherTime(settings: Series, statuses: Series, ts: seq<int>, u: int)
    requires u !in ts
    ensures AtTime(Schedule(settings, statuses, ts), u) == []
    decreases |ts|
  {
    if ts != [] {
      var init, last := ts[..|ts| - 1], ts[|ts| - 1];
      assert u !in init by {
        assert forall i :: 0 <= i < |init| ==> init[i] == ts[i];
      }
      ScheduleAtOtherTime(settings, statuses, init, u);
      LastTimeOnly(settings, statuses, ts, u);
    }
  }

  /** The statements at `u` of a schedule are those at `u` of its prefix,
      plus the whole last step when `u` is the last time. */
  lemma LastTimeOnly(settings: Series, statuses: Series, ts: seq<int>, u: int)
    requires ts != []
    ensures AtTime(Schedule(settings, statuses, ts), u) ==
      AtTime(Schedule(settings, statuses, ts[..|ts| - 1]), u) +
      (if u == ts[|ts| - 1] then StatementsAt(settings, statuses, u, OpenAfter(statuses, ts[..|ts| - 1])) else [])
  {
    var init, last := ts[..|ts| - 1], ts[|ts| - 1];
    var here := StatementsAt(settings, statuses, last, OpenAfter(statuses, init));
    AtTimeAppend(Schedule(settings, statuses, init), here, u);
    AtTimeUniform(here, last, u);
  }

  /** Over strictly increasing times, the statements at the `k`-th time
      are those generated for it from the open state the earlier times
      leave behind. */
  lemma {:induction false} ScheduleAtTime(settings: Series, statuses: Series, ts: seq<int>, k: nat)
    requires StrictlyIncreasing(ts) && k < |ts|
    ensures AtTime(Schedule(settings, statuses, ts), ts[k]) == StatementsAt(settings, statuses, ts[k], OpenAfter(statuses, ts[..k]))
    decreases |ts|, 1
  {
    if k < |ts| - 1 {
      ScheduleAtEarlierTime(settings, statuses, ts, k);
    } else {
      ScheduleAtLastTime(settings, statuses, ts);
    }
  }

  lemma {:induction false} ScheduleAtEarlierTime(settings: Series, statuses: Series, ts: seq<int>, k: nat)
    requires StrictlyIncreasing(ts) && k < |ts| - 1
    ensures AtTime(Schedule(settings, statuses, ts), ts[k]) == StatementsAt(settings, statuses, ts[k], OpenAfter(statuses, ts[..k]))
    decreases |ts|, 0
  {
    var init := ts[..|ts| - 1];
    LastTimeOnly(settings, statuses, ts, ts[k]);
    assert init[k] == ts[k] && init[..k] == ts[..k];
    assert StrictlyIncreasing(init) by {
      assert forall i :: 0 <= i < |init| ==> init[i] == ts[i];
    }
    ScheduleAtTime(settings, statuses, init, k);
  }

  lemma ScheduleAtLastTime(settings: Series, statuses: Series, ts: seq<int>)
    requires StrictlyIncreasing(ts) && ts != []
    ensures var k := |ts| - 1;
      AtTime(Schedule(settings, statuses, ts), ts[k]) == StatementsAt(settings, statuses, ts[k], OpenAfter(statuses, ts[..k]))
  {
    var init, last := ts[..|ts| - 1], ts[|ts| - 1];
    LastTimeOnly(settings, statuses, ts, last);
    assert last !in init by {
      assert forall i :: 0 <= i < |init| ==> init[i] == ts[i];
    }
    ScheduleAtOtherTime(settings, statuses, init, last);
  }

  /** `isOpen` after the times of a strictly increasing sequence that holds
      every status time below `bound` (and nothing at or above it) is the
      state of the link just before `bound`. */
  lemma {:induction false} OpenAfterIsOpenBefore(statuses: Series, xs: seq<int>, bound: int)
    requires StrictlyIncreasing(xs)
    requires forall i :: 0 <= i < |xs| ==> xs[i] < bound
    requires forall k :: k in statuses && k < bound ==> k in xs
    ensures OpenAfter(statuses, xs) == OpenBefore(statuses, bound)
    decreases |xs|, 1
  {
    if xs != [] {
      if xs[|xs| - 1] in statuses {
        LastStatusDecides(statuses, xs, bound);
      } else {
        SkipNonStatusTime(statuses, xs, bound);
      }
    }
  }

  lemma LastStatusDecides(statuses: Series, xs: seq<int>, bound: int)
    requires StrictlyIncreasing(xs) && xs != [] && xs[|xs| - 1] in statuses
    requires forall i :: 0 <= i < |xs| ==> xs[i] < bound
    requires forall k :: k in statuses && k < bound ==> k in xs
    ensures OpenAfter(statuses, xs) == OpenBefore(statuses, bound)
  {
    var m := LastBelow(statuses.Keys, bound);
    assert m.Some?;
    assert m.value in xs;
  }

  lemma {:induction false} SkipNonStatusTime(statuses: Series, xs: seq<int>, bound: int)
    requires StrictlyIncreasing(xs) && xs != [] && xs[|xs| - 1] !in statuses
    requires forall i :: 0 <= i < |xs| ==> xs[i] < bound
    requires forall k :: k in statuses && k < bound ==> k in xs
    ensures OpenAfter(statuses, xs) == OpenBefore(statuses, bound)
    decreases |xs|, 0
  {
    var init, last := xs[..|xs| - 1], xs[|xs| - 1];
    assert forall i :: 0 <= i < |init| ==> init[i] == xs[i] && init[i] < last;
    assert StrictlyIncreasing(init);
    forall k | k in statuses && k < last
      ensures k in init
    {
      var j :| 0 <= j < |xs| && xs[j] == k;
      assert init[j] == k;
    }
    OpenAfterIsOpenBefore(statuses, init, last);
    SameLastBelow(statuses.Keys, last, bound);
  }

  /** Nothing of `s` in `[lo, hi)`: the greatest element below either is
      the same. */
  lemma SameLastBelow(s: set<int>, lo: int, hi: int)
    requires lo <= hi && forall x :: x in s && x < hi ==> x < lo
    ensures LastBelow(s, lo) == LastBelow(s, hi)
  {
    var m1, m2 := LastBelow(s, lo), LastBelow(s, hi);
    if m2.Some? {
      assert m2.value < lo;
    }
  }

  /** Over strictly increasing times that hold every status time, `isOpen`
      before the `k`-th time is the state just before it. */
  lemma OpenAfterPrefix(statuses: Series, ts: seq<int>, k: nat)
    requires StrictlyIncreasing(ts) && k < |ts|
    requires forall key :: key in statuses ==> key in ts
    ensures OpenAfter(statuses, ts[..k]) == OpenBefore(statuses, ts[k])
  {
    var prefix := ts[..k];
    assert forall i :: 0 <= i < |prefix| ==> prefix[i] == ts[i];
    forall key | key in statuses && key < ts[k]
      ensures key in prefix
    {
      var j :| 0 <= j < |ts| && ts[j] == key;
      assert prefix[j] == key;
    }
    OpenAfterIsOpenBefore(statuses, prefix, ts[k]);
  }

  /** The statements a link gets at time `t` depend only on the maps and
      `t`: at a control time, those generated from the state just before
      `t`; at any other time, none. */
  lemma LinkScheduleAt(settings: Series, statuses: Series, t: int)
    ensures AtTime(LinkSchedule(settings, statuses), t) ==
      if t in settings || t in statuses then StatementsAt(settings, statuses, t, OpenBefore(statuses, t)) else []
  {
    var ts := ControlTimes(settings, statuses);
    if t !in ts {
      ScheduleAtOtherTime(settings, statuses, ts, t);
    } else {
      var k :| 0 <= k < |ts| && ts[k] == t;
      ScheduleAtTime(settings, statuses, ts, k);
      OpenAfterPrefix(statuses, ts, k);
    }
  }

  /** The status statement of one step: present exactly at a status
      time, first, and alone of its kind. */
  lemma StepStatus(settings: Series, statuses: Series, t: int, wasOpen: bool)
    ensures var cs := StatementsAt(settings, statuses, t, wasOpen);
      && (t in statuses ==> |cs| > 0 && cs[0] == LinkStatus(t, IsOpenValue(statuses[t].value)))
      && (forall i :: 0 <= i < |cs| && cs[i].LinkStatus? ==> i == 0 && t in statuses)
  {
  }

  /** The setting statement of one step, when there is one: written while
      open, clamped, and either the step's own setting or, at a status
      time, the latest earlier one. */
  lemma StepSetting(settings: Series, statuses: Series, t: int, wasOpen: bool, c: Control)
    requires c in StatementsAt(settings, statuses, t, wasOpen) && c.LinkSetting?
    ensures if t in statuses then IsOpenValue(statuses[t].value) else wasOpen
    ensures 0 <= c.value
    ensures t in settings ==> c.value == Clamp(settings[t].value)
    ensures t !in settings ==>
      t in statuses && PreviousSetting(settings, t).Some? && c.value == Clamp(PreviousSetting(settings, t).value)
  {
  }

  /** Each status time gets exactly one OPEN/CLOSED statement, the first of
      its time, carrying that status; other times get none. */
  lemma StatusOncePerStatusTime(settings: Series, statuses: Series, t: int)
    ensures var at := AtTime(LinkSchedule(settings, statuses), t);
      && (t in statuses ==> |at| > 0 && at[0] == LinkStatus(t, IsOpenValue(statuses[t].value)))
      && (forall i :: 0 <= i < |at| && at[i].LinkStatus? ==> i == 0 && t in statuses)
  {
    LinkScheduleAt(settings, statuses, t);
    StepStatus(settings, statuses, t, OpenBefore(statuses, t));
  }

  /** Every setting statement is written while the link is open, carries
      a value of at least 0, and is either the setting at its own time or,
      at a status time without one, the latest earlier setting. */
  lemma SettingsOnlyWhileOpen(settings: Series, statuses: Series)
    ensures forall c :: c in LinkSchedule(settings, statuses) && c.LinkSetting? ==>
      && OpenAt(statuses, c.time)
      && 0 <= c.value
      && (c.time in settings ==> c.value == Clamp(settings[c.time].value))
      && (c.time !in settings ==>
            c.time in statuses && PreviousSetting(settings, c.time).Some? &&
            c.value == Clamp(PreviousSetting(settings, c.time).value))
  {
    forall c | c in LinkSchedule(settings, statuses) && c.LinkSetting?
      ensures OpenAt(statuses, c.time) && 0 <= c.value
      ensures c.time in settings ==> c.value == Clamp(settings[c.time].value)
      ensures c.time !in settings ==>
        c.time in statuses && PreviousSetting(settings, c.time).Some? &&
        c.value == Clamp(PreviousSetting(settings, c.time).value)
    {
      SettingInSchedule(settings, statuses, c);
    }
  }

  lemma SettingInSchedule(settings: Series, statuses: Series, c: Control)
    requires c in LinkSchedule(settings, statuses) && c.LinkSetting?
    ensures OpenAt(statuses, c.time) && 0 <= c.value
    ensures c.time in settings ==> c.value == Clamp(settings[c.time].value)
    ensures c.time !in settings ==>
      c.time in statuses && PreviousSetting(settings, c.time).Some? &&
      c.value == Clamp(PreviousSetting(settings, c.time).value)
  {
    var t := c.time;
    LinkScheduleAt(settings, statuses, t);
    assert c in AtTime(LinkSchedule(settings, statuses), t);
    StepSetting(settings, statuses, t, OpenBefore(statuses, t), c);
  }

  /** A setting at a time the link is open is written, clamped. */
  lemma SettingWrittenWhileOpen(settings: Series, statuses: Series, t: int)
    requires t in settings && OpenAt(statuses, t)
    ensures LinkSetting(t, Clamp(settings[t].value)) in LinkSchedule(settings, statuses)
  {
    LinkScheduleAt(settings, statuses, t);
    assert LinkSetting(t, Clamp(settings[t].value)) in AtTime(LinkSchedule(settings, statuses), t);
  }

  /** Opening the link at a time without a setting re-establishes the
      latest earlier setting, when there is one. */
  lemma ReopeningRestoresSetting(settings: Series, statuses: Series, t: int)
    requires t in statuses && IsOpenValue(statuses[t].value) && t !in settings
    requires PreviousSetting(settings, t).Some?
    ensures LinkSetting(t, Clamp(PreviousSetting(settings, t).value)) in LinkSchedule(settings, statuses)
  {
    LinkScheduleAt(settings, statuses, t);
    assert LinkSetting(t, Clamp(PreviousSetting(settings, t).value)) in AtTime(LinkSchedule(settings, statuses), t);
  }

  /** A link that is closed at `t` gets no setting statement at `t`. */
  lemma ClosedLinkGetsNoSetting(settings: Series, statuses: Series, t: int)
    requires !OpenAt(statuses, t)
    ensures forall c :: c in LinkSchedule(settings, statuses) && c.time == t ==> c.LinkStatus?
  {
    SettingsOnlyWhileOpen(settings, statuses);
  }

  /** Statements whose times never decrease. */
  predicate InTimeOrder(cs: seq<Control>) {
    forall i, j :: 0 <= i < j < |cs| ==> cs[i].time <= cs[j].time
  }

  /** Statements each carrying one of the times `ts`. */
  predicate AtTimesOf(cs: seq<Control>, ts: seq<int>) {
    forall i :: 0 <= i < |cs| ==> cs[i].time in ts
  }

  /** Every statement carries one of the control times. */
  lemma {:induction false} ScheduleTimes(settings: Series, statuses: Series, ts: seq<int>)
    ensures AtTimesOf(Schedule(settings, statuses, ts), ts)
    decreases |ts|
  {
    if ts != [] {
      var init, last := ts[..|ts| - 1], ts[|ts| - 1];
      ScheduleTimes(settings, statuses, init);
      var a: seq<Control>, b: seq<Control> := Schedule(settings, statuses, init), StatementsAt(settings, statuses, last, OpenAfter(statuses, init));
      forall i | 0 <= i < |a + b|
        ensures (a + b)[i].time in ts
      {
        if i < |a| {
          var k :| 0 <= k < |init| && init[k] == a[i].time;
          assert ts[k] == init[k];
        } else {
          assert (a + b)[i] == b[i - |a|];
          assert ts[|ts| - 1] == last;
        }
      }
    }
  }

  /** Statements come in time order: over strictly increasing times, the
      schedule's times never decrease. */
  lemma {:induction false} ScheduleOrdered(settings: Series, statuses: Series, ts: seq<int>)
    requires StrictlyIncreasing(ts)
    ensures InTimeOrder(Schedule(settings, statuses, ts))
    decreases |ts|
  {
    if ts != [] {
      var init, last := ts[..|ts| - 1], ts[|ts| - 1];
      assert forall i :: 0 <= i < |init| ==> init[i] == ts[i] && init[i] < last;
      assert StrictlyIncreasing(init);
      ScheduleOrdered(settings, statuses, init);
      ScheduleTimes(settings, statuses, init);
      OrderedConcat(Schedule(settings, statuses, init), StatementsAt(settings, statuses, last, OpenAfter(statuses, init)), init, last);
    }
  }

  lemma OrderedConcat(a: seq<Control>, b: seq<Control>, earlier: seq<int>, t: int)
    requires InTimeOrder(a) && AtTimesOf(a, earlier)
    requires forall i :: 0 <= i < |earlier| ==> earlier[i] < t
    requires forall i :: 0 <= i < |b| ==> b[i].time == t
    ensures InTimeOrder(a + b)
  {
    assert forall i :: 0 <= i < |a| ==> (a + b)[i] == a[i] && a[i].time < t;
    assert forall i :: |a| <= i < |a + b| ==> (a + b)[i] == b[i - |a|];
  }

  /** A link's statements come in time order, at its control times. */
  lemma LinkScheduleOrdered(settings: Series, statuses: Series)
    ensures InTimeOrder(LinkSchedule(settings, statuses))
    ensures forall c :: c in LinkSchedule(settings, statuses) ==> c.time in settings || c.time in statuses
  {
    var ts := ControlTimes(settings, statuses);
    ScheduleOrdered(settings, statuses, ts);
    ScheduleTimes(settings, statuses, ts);
  }

  /** A link gets statements exactly when it has a setting or a status: its
      first control time always produces one. */
  lemma ScheduleEmptyIff(settings: Series, statuses: Series)
    ensures LinkSchedule(settings, statuses) == [] <==> settings.Keys + statuses.Keys == {}
  {
    var keys := settings.Keys + statuses.Keys;
    if keys != {} {
      FirstTimeWritten(settings, statuses, Min(keys));
    }
  }

  /** At the first control time the link is open, so something is
      written. */
  lemma FirstTimeWritten(settings: Series, statuses: Series, t: int)
    requires t in settings || t in statuses
    requires forall k :: k in statuses ==> t <= k
    ensures LinkSchedule(settings, statuses) != []
  {
    LinkScheduleAt(settings, statuses, t);
    assert OpenBefore(statuses, t);
    var at := AtTime(LinkSchedule(settings, statuses), t);
    assert at[0] in LinkSchedule(settings, statuses);
  }

  /** A link is given a block exactly when one of its series has a point,
      and every block has statements. */
  lemma LinkBlockPresent(link: Link)
    ensures LinkBlock(link).Some? <==> link.settings != [] || link.statuses != []
    ensures LinkBlock(link).Some? ==> LinkBlock(link).value.link == link.name && LinkBlock(link).value.controls != []
  {
    var settings, statuses := TimeMap(link.settings), TimeMap(link.statuses);
    if link.settings != [] {
      assert link.settings[0].time in settings;
    }
    if link.statuses != [] {
      assert link.statuses[0].time in statuses;
    }
    ScheduleEmptyIff(settings, statuses);
  }

  lemma {:induction false} CopiedTextsAppend(a: seq<OutLine>, b: seq<OutLine>)
    ensures CopiedTexts(a + b) == CopiedTexts(a) + CopiedTexts(b)
    decreases |b|
  {
    if b == [] {
      assert a + b == a;
    } else {
      var init, last := b[..|b| - 1], b[|b| - 1];
      assert (a + b)[..|a + b| - 1] == a + init;
      assert (a + b)[|a + b| - 1] == last;
      CopiedTextsAppend(a, init);
      var tail := match last case Copied(text) => [text] case _ => [];
      assert CopiedTexts(a) + CopiedTexts(init) + tail == CopiedTexts(a) + (CopiedTexts(init) + tail);
    }
  }

  lemma {:induction false} CopiedTextsNone(out: seq<OutLine>)
    requires forall i :: 0 <= i < |out| ==> !out[i].Copied?
    ensures CopiedTexts(out) == []
    decreases |out|
  {
    if out != [] {
      CopiedTextsNone(out[..|out| - 1]);
    }
  }

  /** The header and the lines inserted after it copy only the header. */
  lemma HeaderCopied(line: string, inserted: seq<OutLine>)
    requires forall i :: 0 <= i < |inserted| ==> !inserted[i].Copied?
    ensures CopiedTexts([Copied(line), Blank, Blank] + inserted) == [line]
  {
    var rest := [Blank, Blank] + inserted;
    Regroup(Copied(line), Blank, Blank, inserted);
    PrefixPreserves(Blank, Blank, inserted, (l: OutLine) => !l.Copied?);
    CopiedTextsNone(rest);
    CopiedTextsAppend([Copied(line)], rest);
    LastSplit([Copied(line)]);
  }

  /** Whatever one line becomes, it is copied once. */
  lemma LineOutputCopied(line: string, links: seq<Link>)
    ensures CopiedTexts(LineOutput(line, links)) == [line]
  {
    if SectionFromLine(line) == Controls {
      HeaderCopied(line, BlocksLines(Blocks(links)));
    } else {
      assert [Copied(line)][..0] == [];
    }
  }

  /** Every line of the saved file is copied, in order, whatever is
      inserted after CONTROLS headers. */
  lemma {:induction false} EveryLineCopied(lines: seq<string>, links: seq<Link>)
    ensures CopiedTexts(Rewritten(lines, links)) == lines
    decreases |lines|
  {
    if lines != [] {
      var init, line := lines[..|lines| - 1], lines[|lines| - 1];
      EveryLineCopied(init, links);
      CopiedTextsAppend(Rewritten(init, links), LineOutput(line, links));
      LineOutputCopied(line, links);
      LastSplit(lines);
    }
  }

  /** A file without a CONTROLS header is copied unchanged. */
  lemma {:induction false} NoHeaderNoChange(lines: seq<string>, links: seq<Link>)
    requires forall i :: 0 <= i < |lines| ==> SectionFromLine(lines[i]) != Controls
    ensures Rewritten(lines, links) == seq(|lines|, i requires 0 <= i < |lines| => Copied(lines[i]))
    decreases |lines|
  {
    if lines != [] {
      var init := lines[..|lines| - 1];
      NoHeaderNoChange(init, links);
      LastSplit(lines);
    }
  }
}
