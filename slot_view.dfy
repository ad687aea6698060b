/**
 The time-slot page. The live listener on `booths/CR1/slots` turns the ledger's map from time
 to seats left into one button per time, in sorted order, and decides whether the time the
 visitor picked earlier survives the update; a click on an open slot picks it; the proceed
 button hands the picked time on to the terms page.
 */
module SlotView {
  import opened Wrappers
  import opened JsText
  import opened Ledger
  import opened Config

  /** The booth this page books. */
  const BoothId: string := "CR1"

  /** `(마감)`: the label of a full slot. */
  const FullLabel: string := "(\U{B9C8}\U{AC10})"

  /** `선택 안 됨`: the selected-time display when nothing is picked. */
  const NoSelection: string := "\U{C120}\U{D0DD} \U{C548} \U{B428}"

  /** The listener's snapshot: time to stored seats left, `None` for a stored null. */
  type SlotData = map<string, Option<int>>

  /** JavaScript truthiness of `selectedTime`: null and the empty string are falsy. */
  predicate Truthy(selected: Option<string>)
  {
    selected.Some? && selected.value != ""
  }

  /** `currentRemaining` for a picked time: the capacity when the whole snapshot is null or the
      time's value is null; `None` stands for `undefined`, which a time missing from a non-null
      snapshot yields. */
  function CurrentRemaining(data: Option<SlotData>, time: string, maxCapacity: int): Option<int>
  {
    if data.None? then Some(maxCapacity)
    else if time !in data.value then None
    else Some(Remaining(data.value[time], maxCapacity))
  }

  /** The selection after the listener's first step: a picked time stays only while it has a
      seat left. A falsy selection is left as it is. */
  function Retain(selected: Option<string>, data: Option<SlotData>, maxCapacity: int): Option<string>
  {
    if !Truthy(selected) then selected
    else
      var current := CurrentRemaining(data, selected.value, maxCapacity);
      if current.Some? && current.value > 0 then selected else None
  }

  /** A picked time survives a non-null snapshot exactly when the snapshot holds that time with
      more than zero seats left (a stored null counting as full capacity); otherwise the
      selection is cleared. A null snapshot keeps it whenever the capacity is positive. */
  lemma RetainMeaning(selected: Option<string>, data: Option<SlotData>, maxCapacity: int)
    requires Truthy(selected)
    ensures data.Some? ==>
              (Retain(selected, data, maxCapacity) == selected <==>
                 selected.value in data.value && Remaining(data.value[selected.value], maxCapacity) > 0)
    ensures Retain(selected, data, maxCapacity) != selected ==> Retain(selected, data, maxCapacity) == None
    ensures data.None? ==> (Retain(selected, data, maxCapacity) == selected <==> maxCapacity > 0)
  {
  }

  datatype Status = Available | Unavailable

  /** One `.time-slot` button: its `data-time`, `data-status`, the seats its text reports,
      its `disabled` flag and whether it carries the `selected` class. */
  datatype SlotButton = SlotButton(time: string, status: Status, remaining: int,
                                   disabled: bool, selected: bool)

  /** `(remaining/MAX_CAPACITY)` for an open slot, `(마감)` for a full one. */
  function StatusText(remaining: int, maxCapacity: int): string
  {
    if remaining > 0 then "(" + IntToString(remaining) + "/" + IntToString(maxCapacity) + ")"
    else FullLabel
  }

  /** The button's `textContent`: `${time} ${statusText}`. */
  function Text(b: SlotButton, maxCapacity: int): string
  {
    b.time + " " + StatusText(b.remaining, maxCapacity)
  }

  /** The button the listener builds for `time`, given the selection it kept. */
  function ButtonFor(time: string, value: Option<int>, maxCapacity: int, kept: Option<string>): SlotButton
  {
    var remaining := Remaining(value, maxCapacity);
    var available := remaining > 0;
    SlotButton(time, if available then Available else Unavailable, remaining,
               !available, available && Truthy(kept) && kept.value == time)
  }

  /** The label alone tells a full slot from an open one: an open slot's label holds a digit
      where the full label holds a letter. */
  lemma LabelTellsStatus(remaining: int, maxCapacity: int)
    ensures StatusText(remaining, maxCapacity) == FullLabel <==> remaining <= 0
  {
    if remaining > 0 {
      var s := StatusText(remaining, maxCapacity);
      var d := Decimal(remaining);
      assert s == "(" + d + "/" + IntToString(maxCapacity) + ")";
      assert s[1] == d[0];
      assert IsDigit(d[0]);
      assert FullLabel[1] == '\U{B9C8}';
    }
  }

  /** A slot is open exactly when it has a seat left (a null counting as full capacity); a full
      slot is disabled and labelled full, an open one shows its seats over the capacity; only an
      open slot can carry the selection, and only the kept time. */
  lemma ButtonForMeaning(time: string, value: Option<int>, maxCapacity: int, kept: Option<string>)
    ensures var b := ButtonFor(time, value, maxCapacity, kept);
            var remaining := if value.None? then maxCapacity else value.value;
            && b.time == time
            && (b.status == Available <==> remaining > 0)
            && (b.disabled <==> b.status == Unavailable)
            && b.remaining == remaining
            && (b.status == Unavailable <==> Text(b, maxCapacity) == time + " " + FullLabel)
            && (b.status == Available ==>
                  Text(b, maxCapacity)
                    == time + " (" + IntToString(remaining) + "/" + IntToString(maxCapacity) + ")")
            && (b.selected ==> b.status == Available && kept == Some(time))
  {
    var b := ButtonFor(time, value, maxCapacity, kept);
    LabelTellsStatus(b.remaining, maxCapacity);
    var shown := StatusText(b.remaining, maxCapacity);
    if Text(b, maxCapacity) == time + " " + FullLabel {
      assert shown == (time + " " + shown)[|time| + 1..];
    }
  }

  /** The times among `times` whose slot is open. */
  ghost function OpenAmong(times: seq<string>, data: SlotData, maxCapacity: int): set<string>
  {
    set t | t in times && t in data && Remaining(data[t], maxCapacity) > 0
  }

  /** Every time in the snapshot with a seat left. */
  ghost function OpenTimes(data: SlotData, maxCapacity: int): set<string>
  {
    set t | t in data && Remaining(data[t], maxCapacity) > 0
  }

  /** The kept selection names an open slot of the snapshot. */
  predicate KeptIsOpen(kept: Option<string>, data: SlotData, maxCapacity: int)
  {
    Truthy(kept) && kept.value in data && Remaining(data[kept.value], maxCapacity) > 0
  }

  class SlotBoard {
    const maxCapacity: int
    /** `selectedTime`. */
    var selectedTime: Option<string>
    /** The text of `#selected-time`. */
    var display: string
    /** `finalReserveBtn.disabled`. */
    var proceedDisabled: bool
    /** The children of `.time-slots`, in order. */
    var buttons: seq<SlotButton>
    /** Whether `.time-slots` shows the no-slots notice instead of buttons. */
    var noSlotsNotice: bool

    /** The proceed button is enabled only while the picked time is displayed and sits on a
        selected, open button, and never more than one button is selected. */
    ghost predicate Ready()
      reads this
    {
      && SelectedOnce(buttons)
      && (!proceedDisabled ==>
            && selectedTime.Some? && display == selectedTime.value
            && exists j :: 0 <= j < |buttons| && buttons[j].selected
                           && buttons[j].time == selectedTime.value && buttons[j].status == Available)
    }

    /** The page before the first snapshot, with the configured capacity: nothing picked, no
        buttons; the proceed button's initial state comes from the page's markup. */
    constructor (configured: Option<int>, proceedDisabled: bool)
      ensures maxCapacity == MaxCapacity(configured) && this.proceedDisabled == proceedDisabled
      ensures proceedDisabled ==> Ready()
      ensures selectedTime == None && buttons == [] && !noSlotsNotice && display == NoSelection
    {
      maxCapacity := MaxCapacity(configured);
      this.proceedDisabled := proceedDisabled;
      selectedTime := None;
      display := NoSelection;
      buttons := [];
      noSlotsNotice := false;
    }

    /** The `value` listener. The selection is kept or cleared by `Retain`; the proceed button is
        disabled unless the kept selection is an open slot of the snapshot, which then shows as
        the selected button; a null snapshot shows the notice and no buttons; otherwise there is
        one button per time of the snapshot, in ascending order, each built by `ButtonFor`, and
        the count returned is the number of open slots. */
    method OnValue(data: Option<SlotData>) returns (availableCount: nat)
      modifies this
      ensures Ready()
      ensures selectedTime == Retain(old(selectedTime), data, maxCapacity)
      ensures data.None? ==> && buttons == [] && noSlotsNotice && availableCount == 0
                             && proceedDisabled && display == NoSelection
      ensures data.Some? ==>
                && !noSlotsNotice
                && |buttons| == |data.value|
                && Sorted(Times(buttons))
                && (forall t :: t in Times(buttons) <==> t in data.value)
                && (forall j :: 0 <= j < |buttons| ==>
                      buttons[j].time in data.value
                      && buttons[j] == ButtonFor(buttons[j].time, data.value[buttons[j].time],
                                                 maxCapacity, selectedTime))
                && availableCount == |OpenTimes(data.value, maxCapacity)|
                && proceedDisabled == !KeptIsOpen(selectedTime, data.value, maxCapacity)
                && display == (if proceedDisabled then NoSelection else selectedTime.value)
    {
      var kept := Retain(selectedTime, data, maxCapacity);
      selectedTime := kept;
      proceedDisabled := true;
      display := NoSelection;
      buttons := [];
      noSlotsNotice := false;
      if data.None? {
        noSlotsNotice := true;
        return 0;
      }
      var count, matched;
      buttons, count, matched := BuildButtons(data.value, kept, maxCapacity);
      availableCount := count;
      OneTimeOneButton(buttons, data.value, kept, maxCapacity);
      if matched {
        display := kept.value;
        proceedDisabled := false;
      }
    }

    /** The click handler on `.time-slots`: a click that lands on no slot button, or on a
        disabled or full one, changes nothing; otherwise that slot alone carries the selection,
        its time becomes the selected time and the proceed button is enabled. */
    method Click(target: Option<nat>)
      requires target.Some? ==> target.value < |buttons|
      modifies this
      ensures old(Ready()) ==> Ready()
      ensures noSlotsNotice == old(noSlotsNotice)
      ensures !ClickLands(old(buttons), target) ==>
                && selectedTime == old(selectedTime) && display == old(display)
                && proceedDisabled == old(proceedDisabled) && buttons == old(buttons)
      ensures ClickLands(old(buttons), target) ==>
                && selectedTime == Some(old(buttons)[target.value].time)
                && display == old(buttons)[target.value].time
                && !proceedDisabled
                && |buttons| == |old(buttons)|
                && forall j :: 0 <= j < |buttons| ==>
                     buttons[j] == old(buttons)[j].(selected := j == target.value)
    {
      if target.None? || buttons[target.value].disabled || buttons[target.value].status != Available {
        return;
      }
      var t := target.value;
      var cleared := buttons;
      var i := 0;
      while i < |cleared|
        invariant 0 <= i <= |cleared| && |cleared| == |buttons|
        invariant forall j :: 0 <= j < |cleared| ==>
                    cleared[j] == buttons[j].(selected := if j < i then false else buttons[j].selected)
      {
        cleared := cleared[i := cleared[i].(selected := false)];
        i := i + 1;
      }
      buttons := cleared[t := cleared[t].(selected := true)];
      selectedTime := Some(buttons[t].time);
      display := buttons[t].time;
      proceedDisabled := false;
    }

    /** The proceed button's handler: refused (`None`) while no time is picked, otherwise the
        terms page's address carrying the picked time and the booth. */
    method Proceed() returns (next: Option<string>)
      ensures next.Some? <==> Truthy(selectedTime)
      ensures next.Some? ==> next.value == TermsUrl(selectedTime.value)
    {
      if !Truthy(selectedTime) {
        return None;
      }
      next := Some(TermsUrl(selectedTime.value));
    }
  }

  /** The listener's pass over `Object.keys(slotsData).sort()`: one button per time of the
      snapshot in ascending order, each built by `ButtonFor`; the number of open slots; and
      whether the kept selection met an open slot on the way. */
  method BuildButtons(slots: SlotData, kept: Option<string>, maxCapacity: int)
    returns (built: seq<SlotButton>, count: nat, matched: bool)
    ensures |built| == |slots|
    ensures Sorted(Times(built))
    ensures forall t :: t in Times(built) <==> t in slots
    ensures forall j :: 0 <= j < |built| ==>
              built[j].time in slots
              && built[j] == ButtonFor(built[j].time, slots[built[j].time], maxCapacity, kept)
    ensures count == |OpenTimes(slots, maxCapacity)|
    ensures matched == KeptIsOpen(kept, slots, maxCapacity)
  {
    var times := SortedKeys(slots);
    built, count, matched := ButtonsFor(times, slots, kept, maxCapacity);
    BoardFacts(times, built, slots, kept, maxCapacity);
    SelectionFacts(times, built, slots, kept, maxCapacity);
  }

  /** The listener's `forEach` over a list of the snapshot's times: one button per time, in
      the list's order; the number of open buttons; and whether a selected button was met. */
  method ButtonsFor(times: seq<string>, slots: SlotData, kept: Option<string>, maxCapacity: int)
    returns (built: seq<SlotButton>, count: nat, matched: bool)
    requires forall t :: t in times ==> t in slots
    ensures |built| == |times|
    ensures forall j :: 0 <= j < |built| ==>
              built[j] == ButtonFor(times[j], slots[times[j]], maxCapacity, kept)
    ensures count == CountAvailable(built)
    ensures matched <==> exists j :: 0 <= j < |built| && built[j].selected
  {
    built := [];
    count := 0;
    matched := false;
    ghost var at := 0;
    var i := 0;
    while i < |times|
      invariant 0 <= i <= |times| && |built| == i
      invariant forall j :: 0 <= j < i ==>
                  built[j] == ButtonFor(times[j], slots[times[j]], maxCapacity, kept)
      invariant count == CountAvailable(built)
      invariant matched ==> 0 <= at < i && built[at].selected
      invariant !matched ==> forall j :: 0 <= j < i ==> !built[j].selected
    {
      var time := times[i];
      var button := ButtonFor(time, slots[time], maxCapacity, kept);
      assert (built + [button])[..i] == built;
      count := count + if button.status == Available then 1 else 0;
      if button.selected {
        matched, at := true, i;
      }
      built := built + [button];
      i := i + 1;
    }
  }

  /** What a board built from the sorted keys of a snapshot satisfies: one button per time,
      in ascending order, the open ones as many as the open times, and a selected button
      exactly when the kept selection is an open slot. */
  lemma BoardFacts(times: seq<string>, built: seq<SlotButton>, slots: SlotData,
                   kept: Option<string>, maxCapacity: int)
    requires Sorted(times) && |times| == |slots| && forall y :: y in times <==> y in slots
    requires |built| == |times|
    requires forall j :: 0 <= j < |built| ==>
               built[j] == ButtonFor(times[j], slots[times[j]], maxCapacity, kept)
    ensures Times(built) == times
    ensures forall j :: 0 <= j < |built| ==>
              built[j].time in slots
              && built[j] == ButtonFor(built[j].time, slots[built[j].time], maxCapacity, kept)
    ensures CountAvailable(built) == |OpenTimes(slots, maxCapacity)|
  {
    TimesOf(built, times);
    CountAvailableIsOpen(built, slots, kept, maxCapacity);
    OpenAmongAll(times, slots, maxCapacity);
  }

  /** On such a board some button is selected exactly when the kept selection is an open slot. */
  lemma SelectionFacts(times: seq<string>, built: seq<SlotButton>, slots: SlotData,
                       kept: Option<string>, maxCapacity: int)
    requires forall y :: y in times <==> y in slots
    requires |built| == |times|
    requires forall j :: 0 <= j < |built| ==>
               built[j] == ButtonFor(times[j], slots[times[j]], maxCapacity, kept)
    ensures (exists j :: 0 <= j < |built| && built[j].selected) <==> KeptIsOpen(kept, slots, maxCapacity)
  {
    if KeptIsOpen(kept, slots, maxCapacity) {
      var j :| 0 <= j < |times| && times[j] == kept.value;
      assert built[j].selected;
    }
  }

  /** No two buttons carry the `selected` class. */
  ghost predicate SelectedOnce(buttons: seq<SlotButton>)
  {
    forall i, j :: 0 <= i < j < |buttons| && buttons[i].selected ==> !buttons[j].selected
  }

  /** A board with one button per time in strictly ascending order selects at most one button,
      since only the kept time's button can be selected. */
  lemma OneTimeOneButton(built: seq<SlotButton>, slots: SlotData, kept: Option<string>, maxCapacity: int)
    requires Sorted(Times(built))
    requires forall j :: 0 <= j < |built| ==>
               built[j].time in slots
               && built[j] == ButtonFor(built[j].time, slots[built[j].time], maxCapacity, kept)
    ensures SelectedOnce(built)
  {
    forall i, j | 0 <= i < j < |built| && built[i].selected
      ensures !built[j].selected
    {
      assert LexLess(Times(built)[i], Times(built)[j]);
      LexIrreflexive(built[i].time);
    }
  }

  /** The number of open buttons. */
  function CountAvailable(buttons: seq<SlotButton>): nat
  {
    if buttons == [] then 0
    else CountAvailable(buttons[..|buttons| - 1])
         + (if buttons[|buttons| - 1].status == Available then 1 else 0)
  }

  /** Over buttons built one per time, in strictly ascending order, the open buttons are as
      many as the open times among theirs. */
  lemma {:induction false} CountAvailableIsOpen(built: seq<SlotButton>, slots: SlotData,
                                                kept: Option<string>, maxCapacity: int)
    requires Sorted(Times(built))
    requires forall j :: 0 <= j < |built| ==>
               built[j].time in slots
               && built[j] == ButtonFor(built[j].time, slots[built[j].time], maxCapacity, kept)
    ensures CountAvailable(built) == |OpenAmong(Times(built), slots, maxCapacity)|
  {
    if built != [] {
      var n := |built| - 1;
      var prefix := built[..n];
      assert Times(prefix) == Times(built)[..n];
      CountAvailableIsOpen(prefix, slots, kept, maxCapacity);
      OpenAmongStep(Times(built), n, slots, maxCapacity);
      assert Times(built)[..n + 1] == Times(built);
    }
  }

  /** `./terms.html?time=${selectedTime}&booth=${boothId}`. */
  function TermsUrl(time: string): string
  {
    "./terms.html?time=" + time + "&booth=" + BoothId
  }

  /** The `data-time` values of the buttons, in order. */
  function Times(buttons: seq<SlotButton>): (times: seq<string>)
    ensures |times| == |buttons|
    ensures forall j :: 0 <= j < |buttons| ==> times[j] == buttons[j].time
  {
    seq(|buttons|, j requires 0 <= j < |buttons| => buttons[j].time)
  }

  /** A click selects: it lands on a button that is neither disabled nor full. */
  predicate ClickLands(buttons: seq<SlotButton>, target: Option<nat>)
  {
    target.Some? && target.value < |buttons|
    && !buttons[target.value].disabled && buttons[target.value].status == Available
  }

  lemma OpenAmongStep(times: seq<string>, i: nat, data: SlotData, maxCapacity: int)
    requires i < |times| && Sorted(times)
    ensures times[..i + 1] == times[..i] + [times[i]]
    ensures var t := times[i];
            OpenAmong(times[..i + 1], data, maxCapacity)
              == OpenAmong(times[..i], data, maxCapacity)
                 + (if t in data && Remaining(data[t], maxCapacity) > 0 then {t} else {})
    ensures times[i] !in OpenAmong(times[..i], data, maxCapacity)
  {
    assert times[..i + 1] == times[..i] + [times[i]];
    if times[i] in times[..i] {
      var j :| 0 <= j < i && times[..i][j] == times[i];
      LexIrreflexive(times[i]);
    }
  }

  lemma OpenAmongAll(times: seq<string>, data: SlotData, maxCapacity: int)
    requires forall t :: t in times <==> t in data
    ensures OpenAmong(times, data, maxCapacity) == OpenTimes(data, maxCapacity)
  {
  }

  lemma TimesOf(buttons: seq<SlotButton>, times: seq<string>)
    requires |buttons| == |times|
    requires forall j :: 0 <= j < |buttons| ==> buttons[j].time == times[j]
    ensures Times(buttons) == times
  {
  }
}
