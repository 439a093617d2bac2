/** The thumbnail cycler behind the filter gallery: the `renderButtons`
    generator, advanced once per animation frame by `step`, animates each
    filter's thumbnail for 100 ticks, compositing every tick into one of 100
    saved gallery snapshots, then switches the thumbnail program to the next
    filter. `step` shows the snapshots in turn. */
module GalleryCycler {

  /** Ticks the inner loop spends on one filter. */
  const TicksPerFilter: nat := 100
  /** Saved gallery snapshots (`window.frames`), one per tick of a filter. */
  const FrameSlots: nat := 100
  /** Yields the generator makes per filter: one per tick, one at the switch. */
  const YieldsPerFilter: nat := TicksPerFilter + 1

  /** A thumbnail composited into a snapshot: the filter whose program drew it
      and the button clock, in ticks of 16.666 ms, it was drawn at. */
  datatype Thumb = Thumb(program: nat, clock: nat)

  /** The filter whose program draws into cell `f`: the program is first loaded
      for the selected filter, later for `buttons[filterIndex]`. */
  function ProgramFor(selected: nat, f: nat): (p: nat)
    ensures p != f ==> f == 0 && p == selected
  {
    if f == 0 then selected else f
  }

  /** Snapshot slot `slot` once the thumbnails of filters `0 .. drawn - 1`
      have been composited into it. */
  function Snapshot(selected: nat, drawn: nat, slot: nat): (m: map<int, Thumb>)
    ensures forall f :: f in m <==> 0 <= f < drawn
  {
    map f | 0 <= f < drawn :: Thumb(ProgramFor(selected, f), f * TicksPerFilter + slot)
  }

  /** Compositing filter `drawn` into a slot adds exactly its thumbnail. */
  lemma SnapshotGrows(selected: nat, drawn: nat, slot: nat)
    ensures Snapshot(selected, drawn + 1, slot)
      == Snapshot(selected, drawn, slot)[drawn := Thumb(ProgramFor(selected, drawn), drawn * TicksPerFilter + slot)]
  {
    var next := Snapshot(selected, drawn + 1, slot);
    var grown := Snapshot(selected, drawn, slot)[drawn := Thumb(ProgramFor(selected, drawn), drawn * TicksPerFilter + slot)];
    assert next.Keys == grown.Keys;
    forall f | f in next
      ensures next[f] == grown[f]
    {
    }
  }

  /** How many filters slot `slot` holds while the generator is at button
      `button`, tick `tick`. */
  function DrawnFilters(buttonCount: nat, button: nat, tick: nat, slot: nat): (d: nat)
    ensures d <= button + 1
  {
    button + if button < buttonCount && slot < tick then 1 else 0
  }

  /** Every saved slot holds exactly the thumbnails composited into it so
      far, while the generator is at button `button`, tick `tick`. */
  ghost predicate SnapshotsMatch(frames: seq<map<int, Thumb>>, buttonCount: nat, selected: nat, button: nat, tick: nat)
  {
    && |frames| == FrameSlots
    && forall s :: 0 <= s < FrameSlots ==> frames[s] == Snapshot(selected, DrawnFilters(buttonCount, button, tick, s), s)
  }

  /** A tick of button `button` composites its thumbnail into slot `tick` and
      leaves every other slot as it was. */
  lemma TickKeepsSnapshots(frames: seq<map<int, Thumb>>, buttonCount: nat, selected: nat, button: nat, tick: nat)
    requires SnapshotsMatch(frames, buttonCount, selected, button, tick)
    requires button < buttonCount && tick < TicksPerFilter
    ensures SnapshotsMatch(
      frames[tick := frames[tick][button := Thumb(ProgramFor(selected, button), button * TicksPerFilter + tick)]],
      buttonCount, selected, button, tick + 1)
  {
    var after := frames[tick := frames[tick][button := Thumb(ProgramFor(selected, button), button * TicksPerFilter + tick)]];
    forall s | 0 <= s < FrameSlots
      ensures after[s] == Snapshot(selected, DrawnFilters(buttonCount, button, tick + 1, s), s)
    {
      if s == tick {
        SnapshotGrows(selected, button, s);
      } else {
        assert DrawnFilters(buttonCount, button, tick + 1, s) == DrawnFilters(buttonCount, button, tick, s);
      }
    }
  }

  /** Moving to the next button changes no slot: each already holds the
      finished filter's thumbnail. */
  lemma SwitchKeepsSnapshots(frames: seq<map<int, Thumb>>, buttonCount: nat, selected: nat, button: nat)
    requires SnapshotsMatch(frames, buttonCount, selected, button, TicksPerFilter)
    requires button < buttonCount
    ensures SnapshotsMatch(frames, buttonCount, selected, button + 1, 0)
  {
    forall s | 0 <= s < FrameSlots
      ensures DrawnFilters(buttonCount, button + 1, 0, s) == DrawnFilters(buttonCount, button, TicksPerFilter, s)
    {
    }
  }

  /** After a full pass every slot holds one thumbnail per filter, each drawn
      at its own tick of the button clock and, from filter 1 on, by its own
      program; filter 0's cell was drawn by the program of the filter
      selected at load time. */
  lemma FullPassSnapshots(frames: seq<map<int, Thumb>>, buttonCount: nat, selected: nat)
    requires SnapshotsMatch(frames, buttonCount, selected, buttonCount, 0)
    ensures forall s, f :: 0 <= s < FrameSlots && 0 <= f < buttonCount ==>
      f in frames[s] && frames[s][f] == Thumb(if f == 0 then selected else f, f * TicksPerFilter + s)
  {
    forall s, f | 0 <= s < FrameSlots && 0 <= f < buttonCount
      ensures f in frames[s] && frames[s][f] == Thumb(if f == 0 then selected else f, f * TicksPerFilter + s)
    {
      assert DrawnFilters(buttonCount, buttonCount, 0, s) == buttonCount;
    }
  }

  /** The counters at a switch: the index wraps to 0 after the last filter,
      and both the clock and the yield count of the next filter start one
      filter further on. */
  lemma SwitchArithmetic(button: nat, buttonCount: nat)
    requires button < buttonCount
    ensures (button + 1) % buttonCount == if button + 1 < buttonCount then button + 1 else 0
    ensures (button + 1) * TicksPerFilter == button * TicksPerFilter + TicksPerFilter
    ensures (button + 1) * YieldsPerFilter == button * YieldsPerFilter + TicksPerFilter + 1
  {
  }

  class ThumbnailCycler {
    /** `buttons.length`: one button per filter. */
    const buttonCount: nat
    /** The filter selected when the page loaded. */
    const selected: nat

    var filterIndex: nat
    /** Position of the `for (let button of buttons)` loop. */
    var button: nat
    /** Position of the inner `for (let i ...)` loop; 100 means the ticks of
        this filter are done and the program switch comes next. */
    var tick: nat
    /** The generator has returned. */
    var finished: bool
    /** The filter `programForButtons` was loaded for. */
    var program: nat
    /** Programs deleted by the switches, oldest first. */
    var retired: seq<nat>
    /** `timeForButtons`, counted in steps of 16.666 ms. */
    var clock: nat
    /** `window.frames`: per slot, the thumbnails composited in it by filter index. */
    var frames: seq<map<int, Thumb>>
    /** The slot `step` shows next. */
    var frameToDraw: nat
    /** How many times the generator has been advanced. */
    ghost var calls: nat

    ghost predicate Valid()
      reads this
    {
      && 0 < buttonCount && selected < buttonCount
      && |frames| == FrameSlots && frameToDraw < FrameSlots
      && button <= buttonCount && tick <= TicksPerFilter
      && (button == buttonCount ==> tick == 0)
      && filterIndex == (if button < buttonCount then button else 0)
      && clock == button * TicksPerFilter + tick
      && program == (if button == 0 then selected else filterIndex)
      && |retired| == button
      && (forall k :: 0 <= k < |retired| ==> retired[k] == ProgramFor(selected, k))
      && SnapshotsMatch(frames, buttonCount, selected, button, tick)
      && (!finished ==> calls == button * YieldsPerFilter + tick)
      && (finished ==> button == buttonCount && calls > buttonCount * YieldsPerFilter)
    }

    /** The state `window.onload` sets up: blank snapshots, both counters at
        zero, the program of the selected filter loaded. */
    constructor (buttonCount: nat, selected: nat)
      requires selected < buttonCount
      ensures Valid()
      ensures this.buttonCount == buttonCount && this.selected == selected
      ensures filterIndex == 0 && clock == 0 && frameToDraw == 0 && program == selected
      ensures calls == 0 && !finished && retired == []
      ensures forall s :: 0 <= s < FrameSlots ==> frames[s] == map[]
    {
      this.buttonCount := buttonCount;
      this.selected := selected;
      filterIndex := 0;
      button := 0;
      tick := 0;
      finished := false;
      program := selected;
      retired := [];
      clock := 0;
      frames := seq(FrameSlots, _ => map[]);
      frameToDraw := 0;
      calls := 0;
      new;
      forall s | 0 <= s < FrameSlots
        ensures frames[s] == Snapshot(selected, DrawnFilters(buttonCount, button, tick, s), s)
      {
        assert Snapshot(selected, 0, s) == map[];
      }
      assert SnapshotsMatch(frames, buttonCount, selected, button, tick);
    }

    /** `generator.next()`: run the generator to its next `yield`. */
    method Next()
      requires Valid()
      modifies this
      ensures Valid()
      ensures calls == old(calls) + 1 && frameToDraw == old(frameToDraw)
      // once returned, the generator does nothing more
      ensures old(finished) ==>
        finished && filterIndex == old(filterIndex) && program == old(program) && retired == old(retired)
        && clock == old(clock) && frames == old(frames)
      // past the last button the loop ends and the generator returns
      ensures !old(finished) && old(button) == buttonCount ==>
        finished && filterIndex == old(filterIndex) && program == old(program) && retired == old(retired)
        && clock == old(clock) && frames == old(frames)
      // a tick: composite the current thumbnail into slot `i`, advance the clock
      ensures !old(finished) && old(button) < buttonCount && old(tick) < TicksPerFilter ==>
        !finished && tick == old(tick) + 1 && clock == old(clock) + 1
        && frames == old(frames)[old(tick) := old(frames)[old(tick)][old(filterIndex) := Thumb(old(program), old(clock))]]
        && filterIndex == old(filterIndex) && program == old(program) && retired == old(retired)
      // after 100 ticks: delete the old program, move to the next filter, load its program
      ensures !old(finished) && old(button) < buttonCount && old(tick) == TicksPerFilter ==>
        !finished && tick == 0 && button == old(button) + 1
        && retired == old(retired) + [old(program)]
        && filterIndex == (old(filterIndex) + 1) % buttonCount && program == filterIndex
        && clock == old(clock) && frames == old(frames)
    {
      if finished {
        calls := calls + 1;
        return;
      }
      if button == buttonCount {
        calls := calls + 1;
        finished := true;
        return;
      }
      if tick < TicksPerFilter {
        Tick();
      } else {
        SwitchProgram();
      }
    }

    /** One pass of the inner loop body: put snapshot `i` back on the gallery,
        draw the current filter's thumbnail into its cell, save the result as
        snapshot `i`, advance the button clock. */
    method Tick()
      requires Valid() && !finished && button < buttonCount && tick < TicksPerFilter
      modifies this
      ensures Valid() && !finished
      ensures calls == old(calls) + 1 && frameToDraw == old(frameToDraw)
      ensures tick == old(tick) + 1 && button == old(button) && clock == old(clock) + 1
      ensures frames == old(frames)[old(tick) := old(frames)[old(tick)][old(filterIndex) := Thumb(old(program), old(clock))]]
      ensures filterIndex == old(filterIndex) && program == old(program) && retired == old(retired)
    {
      calls := calls + 1;
      var i := tick;
      TickKeepsSnapshots(frames, buttonCount, selected, button, i);
      frames := frames[i := frames[i][filterIndex := Thumb(program, clock)]];
      clock := clock + 1;
      tick := tick + 1;
    }

    /** The code after the inner loop: delete the thumbnail program, step the
        filter index round the catalogue, load the next filter's program. */
    method SwitchProgram()
      requires Valid() && !finished && button < buttonCount && tick == TicksPerFilter
      modifies this
      ensures Valid() && !finished
      ensures calls == old(calls) + 1 && frameToDraw == old(frameToDraw)
      ensures tick == 0 && button == old(button) + 1
      ensures retired == old(retired) + [old(program)]
      ensures filterIndex == (old(filterIndex) + 1) % buttonCount && program == filterIndex
      ensures clock == old(clock) && frames == old(frames)
    {
      calls := calls + 1;
      SwitchKeepsSnapshots(frames, buttonCount, selected, button);
      SwitchArithmetic(button, buttonCount);
      assert program == ProgramFor(selected, button);
      retired := retired + [program];
      filterIndex := (filterIndex + 1) % buttonCount;
      program := filterIndex;
      button := button + 1;
      tick := 0;
    }

    /** `step`: advance the generator, then show snapshot `frameToDraw` and
        move on to the next slot. */
    method Step() returns (shown: map<int, Thumb>)
      requires Valid()
      modifies this
      ensures Valid()
      ensures shown == frames[old(frameToDraw)]
      ensures frameToDraw == (old(frameToDraw) + 1) % FrameSlots
      ensures calls == old(calls) + 1
    {
      Next();
      shown := frames[frameToDraw];
      frameToDraw := (frameToDraw + 1) % FrameSlots;
    }

    /** Advancing a fresh cycler once per yield of a full pass: every slot then
        holds every filter's thumbnail, the index is back at 0 after exactly
        `buttonCount` switches, and the generator is not yet finished. */
    method RunFullPass()
      requires Valid() && calls == 0
      modifies this
      ensures Valid() && !finished
      ensures calls == buttonCount * YieldsPerFilter
      ensures filterIndex == 0 && |retired| == buttonCount
      ensures clock == buttonCount * TicksPerFilter
      ensures frameToDraw == old(frameToDraw)
      ensures forall s, f :: 0 <= s < FrameSlots && 0 <= f < buttonCount ==>
        f in frames[s] && frames[s][f] == Thumb(if f == 0 then selected else f, f * TicksPerFilter + s)
    {
      ghost var shownNext := frameToDraw;
      var k := 0;
      while k < buttonCount * YieldsPerFilter
        invariant Valid() && !finished && calls == k && k <= buttonCount * YieldsPerFilter
        invariant frameToDraw == shownNext
      {
        Next();
        k := k + 1;
      }
      assert button == buttonCount;
      FullPassSnapshots(frames, buttonCount, selected);
    }
  }
}
