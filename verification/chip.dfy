/** Material chips (material/chip.cs): when a chip is enabled and tappable,
    what a tap reports, the slot bookkeeping of the chip's element and
    render object, the order of its children and the child a hit goes to. */
module Chip {
  import opened Wrappers
  import SlotMaps

  /** Which callbacks a chip was given. */
  datatype Callbacks = Callbacks(onPressed: bool, onSelected: bool, onDeleted: bool)

  /** `InputChip`: enabled when asked to be and some callback exists. */
  predicate InputChipEnabled(isEnabled: Option<bool>, c: Callbacks) {
    isEnabled == Some(true) && (c.onSelected || c.onDeleted || c.onPressed)
  }

  /** `ChoiceChip.isEnabled` and `FilterChip.isEnabled`. */
  predicate SelectableChipEnabled(c: Callbacks) {
    c.onSelected
  }

  /** `RawChip.canTap`. */
  predicate CanTap(isEnabled: Option<bool>, tapEnabled: Option<bool>, c: Callbacks) {
    isEnabled == Some(true) && tapEnabled == Some(true) && (c.onPressed || c.onSelected)
  }

  /** The chips hand `RawChip` their enable rule with taps enabled: an
      `InputChip` can be tapped exactly when asked to be enabled and given a
      press or select callback, so one enabled only through `onDeleted`
      shows as enabled yet ignores taps; a choice or filter chip can be
      tapped exactly when it has `onSelected`. */
  lemma ChipTapRules(isEnabled: Option<bool>, c: Callbacks)
    ensures CanTap(Some(InputChipEnabled(isEnabled, c)), Some(true), c) <==>
      isEnabled == Some(true) && (c.onPressed || c.onSelected)
    ensures InputChipEnabled(isEnabled, c) && !c.onPressed && !c.onSelected ==>
      !CanTap(Some(InputChipEnabled(isEnabled, c)), Some(true), c)
    ensures CanTap(Some(SelectableChipEnabled(c)), Some(true), c) <==> c.onSelected
  {
  }

  /** The chip's tap state. */
  datatype TapState = TapState(isEnabled: Option<bool>, tapEnabled: Option<bool>, callbacks: Callbacks,
                               selected: Option<bool>, tapping: bool)

  /** `isTapping`: never while the chip cannot be tapped. */
  function IsTapping(s: TapState): (r: bool)
    ensures r ==> CanTap(s.isEnabled, s.tapEnabled, s.callbacks)
    ensures CanTap(s.isEnabled, s.tapEnabled, s.callbacks) ==> r == s.tapping
  {
    if !CanTap(s.isEnabled, s.tapEnabled, s.callbacks) then false else s.tapping
  }

  /** `_handleTapDown`. */
  function TapDown(s: TapState): (r: TapState)
    ensures CanTap(s.isEnabled, s.tapEnabled, s.callbacks) ==> IsTapping(r)
    ensures !CanTap(s.isEnabled, s.tapEnabled, s.callbacks) ==> r == s
  {
    if !CanTap(s.isEnabled, s.tapEnabled, s.callbacks) then s else s.(tapping := true)
  }

  /** `_handleTapCancel`. */
  function TapCancel(s: TapState): (r: TapState)
    ensures !IsTapping(r)
    ensures r.(tapping := s.tapping) == s
  {
    if !CanTap(s.isEnabled, s.tapEnabled, s.callbacks) then s else s.(tapping := false)
  }

  /** What a tap does: the new state, the value handed to `onSelected`
      (if called) and whether `onPressed` was called. */
  datatype TapOutcome = TapOutcome(state: TapState, selectedReport: Option<bool>, pressed: bool)

  /** `_handleTap` as written: `onSelected(!selected == true)`, so a chip
      whose `selected` is null reports false, like a selected one. */
  function TapAsWritten(s: TapState): (r: TapOutcome)
    ensures !CanTap(s.isEnabled, s.tapEnabled, s.callbacks) ==> r == TapOutcome(s, None, false)
    ensures CanTap(s.isEnabled, s.tapEnabled, s.callbacks) ==>
      !IsTapping(r.state) && r.pressed == s.callbacks.onPressed &&
      (r.selectedReport.Some? <==> s.callbacks.onSelected) &&
      (r.selectedReport.Some? ==> (r.selectedReport.value <==> s.selected == Some(false)))
  {
    if !CanTap(s.isEnabled, s.tapEnabled, s.callbacks) then TapOutcome(s, None, false)
    else
      var report := if s.callbacks.onSelected then Some(s.selected == Some(false)) else None;
      TapOutcome(s.(tapping := false), report, s.callbacks.onPressed)
  }

  /** An unselected chip with no `selected` value reports false when
      tapped: it stays unselected however often it is tapped. */
  lemma TapOnNullSelectedReportsFalse()
    ensures var s := TapState(Some(true), Some(true), Callbacks(false, true, false), None, false);
            TapAsWritten(s).selectedReport == Some(false)
  {
  }

  /** `_handleTap` as intended: a missing `selected` counts as unselected. */
  function Tap(s: TapState): (r: TapOutcome)
    ensures !CanTap(s.isEnabled, s.tapEnabled, s.callbacks) ==> r == TapOutcome(s, None, false)
    ensures CanTap(s.isEnabled, s.tapEnabled, s.callbacks) ==>
      !IsTapping(r.state) && r.pressed == s.callbacks.onPressed &&
      (r.selectedReport.Some? <==> s.callbacks.onSelected) &&
      (r.selectedReport.Some? ==> (r.selectedReport.value <==> s.selected != Some(true)))
  {
    if !CanTap(s.isEnabled, s.tapEnabled, s.callbacks) then TapOutcome(s, None, false)
    else
      var report := if s.callbacks.onSelected then Some(s.selected != Some(true)) else None;
      TapOutcome(s.(tapping := false), report, s.callbacks.onPressed)
  }

  /** A tap asks for the opposite of the current selection, and a chip
      whose callback applies the report toggles back on the next tap. */
  lemma TapToggles(s: TapState)
    requires CanTap(s.isEnabled, s.tapEnabled, s.callbacks) && s.callbacks.onSelected
    ensures var r := Tap(s);
            r.selectedReport == Some(s.selected != Some(true)) &&
            Tap(r.state.(selected := r.selectedReport)).selectedReport == Some(s.selected == Some(true))
  {
  }

  /** The two differ only for a chip without a `selected` value. */
  lemma TapAgreesWhenSelectedIsSet(s: TapState)
    requires s.selected.Some?
    ensures TapAsWritten(s) == Tap(s)
  {
    if s.selected.value {
      assert s.selected == Some(true);
    } else {
      assert s.selected == Some(false);
    }
  }

  // ---------------------------------------------------------------------------
  // Slots

  /** `_ChipSlot`. */
  datatype Slot = Label | Avatar | DeleteIcon

  /** A child element or render box, by identity. */
  type Child = nat

  /** `slotToChild` and `childToSlot` of `_RenderChipElement`. */
  type Slots = SlotMaps.Slots<Slot, Child>

  /** `_mountChild`: the old child is looked up with a default, so an empty
      slot is fine; the slot ends up holding what `updateChild` returned. */
  function MountChild(m: Slots, slot: Slot, newChild: Option<Child>): (r: Slots)
    requires SlotMaps.Inverse(m) && SlotMaps.FitsSlot(m, slot, newChild)
    ensures SlotMaps.Inverse(r)
    ensures SlotMaps.ChildAt(r, slot) == newChild
    ensures forall s | s != slot :: SlotMaps.ChildAt(r, s) == SlotMaps.ChildAt(m, s)
  {
    SlotMaps.Replace(m, slot, newChild)
  }

  datatype SlotError = KeyNotFound

  /** `_RenderChipElement._updateChild` as written: the old child is read
      with the throwing indexer, so an empty slot fails. */
  function UpdateChildAsWritten(m: Slots, slot: Slot, newChild: Option<Child>): (r: Result<Slots, SlotError>)
    requires SlotMaps.Inverse(m) && SlotMaps.FitsSlot(m, slot, newChild)
    ensures r.Failure? <==> slot !in m.slotToChild
    ensures r.Success? ==> SlotMaps.Inverse(r.value) && SlotMaps.ChildAt(r.value, slot) == newChild
    ensures r.Success? ==> forall s | s != slot :: SlotMaps.ChildAt(r.value, s) == SlotMaps.ChildAt(m, s)
  {
    if slot !in m.slotToChild then Failure(KeyNotFound) else Success(SlotMaps.Replace(m, slot, newChild))
  }

  /** `_RenderChipElement._updateChild` as intended: like `_mountChild`,
      and the same as the written one wherever that does not throw. */
  function UpdateChild(m: Slots, slot: Slot, newChild: Option<Child>): (r: Slots)
    requires SlotMaps.Inverse(m) && SlotMaps.FitsSlot(m, slot, newChild)
    ensures slot in m.slotToChild ==> UpdateChildAsWritten(m, slot, newChild) == Success(r)
    ensures SlotMaps.Inverse(r)
    ensures SlotMaps.ChildAt(r, slot) == newChild
    ensures forall s | s != slot :: SlotMaps.ChildAt(r, s) == SlotMaps.ChildAt(m, s)
  {
    SlotMaps.Replace(m, slot, newChild)
  }

  /** Present children are distinct elements. */
  predicate Distinct3(a: Option<Child>, b: Option<Child>, c: Option<Child>) {
    (a.Some? && b.Some? ==> a.value != b.value) && (a.Some? && c.Some? ==> a.value != c.value) &&
    (b.Some? && c.Some? ==> b.value != c.value)
  }

  /** `mount`: avatar, delete icon, then label, starting from no children.
      Each argument is what `updateChild` returned for that slot. */
  function Mount(avatar: Option<Child>, deleteIcon: Option<Child>, labelChild: Option<Child>): (r: Slots)
    requires Distinct3(avatar, deleteIcon, labelChild)
    ensures SlotMaps.Inverse(r)
    ensures SlotMaps.ChildAt(r, Avatar) == avatar && SlotMaps.ChildAt(r, DeleteIcon) == deleteIcon &&
            SlotMaps.ChildAt(r, Label) == labelChild
  {
    var m1 := MountChild(SlotMaps.Empty(), Avatar, avatar);
    var m2 := MountChild(m1, DeleteIcon, deleteIcon);
    MountChild(m2, Label, labelChild)
  }

  /** `update` as written: label, avatar, then delete icon, each through
      the throwing `_updateChild`. */
  function UpdateAsWritten(m: Slots, avatar: Option<Child>, deleteIcon: Option<Child>, labelChild: Option<Child>): (r: Result<Slots, SlotError>)
    requires SlotMaps.Inverse(m) && Distinct3(avatar, deleteIcon, labelChild)
    requires SlotMaps.FitsSlot(m, Label, labelChild) && SlotMaps.FitsSlot(m, Avatar, avatar) &&
             SlotMaps.FitsSlot(m, DeleteIcon, deleteIcon)
    ensures r.Failure? <==> Label !in m.slotToChild || Avatar !in m.slotToChild || DeleteIcon !in m.slotToChild
  {
    var m1 := UpdateChildAsWritten(m, Label, labelChild);
    if m1.Failure? then Failure(m1.error)
    else
      assert SlotMaps.FitsSlot(m1.value, Avatar, avatar);
      var m2 := UpdateChildAsWritten(m1.value, Avatar, avatar);
      if m2.Failure? then Failure(m2.error)
      else
        assert SlotMaps.FitsSlot(m2.value, DeleteIcon, deleteIcon);
        UpdateChildAsWritten(m2.value, DeleteIcon, deleteIcon)
  }

  /** A chip mounted without an avatar cannot be rebuilt: the update stops
      at the empty avatar slot whatever the new widgets are. */
  lemma RebuildWithoutAvatarFails(deleteIcon: Option<Child>, labelChild: Option<Child>, newAvatar: Option<Child>)
    requires Distinct3(None, deleteIcon, labelChild) && Distinct3(newAvatar, deleteIcon, labelChild)
    ensures var m := Mount(None, deleteIcon, labelChild);
            SlotMaps.FitsSlot(m, Label, labelChild) && SlotMaps.FitsSlot(m, Avatar, newAvatar) &&
            SlotMaps.FitsSlot(m, DeleteIcon, deleteIcon) &&
            UpdateAsWritten(m, newAvatar, deleteIcon, labelChild).Failure?
  {
    var m := Mount(None, deleteIcon, labelChild);
    assert SlotMaps.ChildAt(m, Avatar).None?;
  }

  /** `update` as intended: each slot ends up holding exactly its new child. */
  function Update(m: Slots, avatar: Option<Child>, deleteIcon: Option<Child>, labelChild: Option<Child>): (r: Slots)
    requires SlotMaps.Inverse(m) && Distinct3(avatar, deleteIcon, labelChild)
    requires SlotMaps.FitsSlot(m, Label, labelChild) && SlotMaps.FitsSlot(m, Avatar, avatar) &&
             SlotMaps.FitsSlot(m, DeleteIcon, deleteIcon)
    ensures SlotMaps.Inverse(r)
    ensures SlotMaps.ChildAt(r, Avatar) == avatar && SlotMaps.ChildAt(r, DeleteIcon) == deleteIcon &&
            SlotMaps.ChildAt(r, Label) == labelChild
  {
    var m1 := UpdateChild(m, Label, labelChild);
    assert SlotMaps.FitsSlot(m1, Avatar, avatar);
    var m2 := UpdateChild(m1, Avatar, avatar);
    assert SlotMaps.FitsSlot(m2, DeleteIcon, deleteIcon);
    UpdateChild(m2, DeleteIcon, deleteIcon)
  }

  /** Rebuilding with the children just mounted gives the mounted state. */
  lemma UpdateAfterMount(avatar: Option<Child>, deleteIcon: Option<Child>, labelChild: Option<Child>)
    requires Distinct3(avatar, deleteIcon, labelChild)
    ensures var m := Mount(avatar, deleteIcon, labelChild);
            SlotMaps.FitsSlot(m, Label, labelChild) && SlotMaps.FitsSlot(m, Avatar, avatar) &&
            SlotMaps.FitsSlot(m, DeleteIcon, deleteIcon) &&
            Update(m, avatar, deleteIcon, labelChild) == m
  {
    var m := Mount(avatar, deleteIcon, labelChild);
    var r := Update(m, avatar, deleteIcon, labelChild);
    SlotMaps.SameChildrenSameSlots(r, m);
  }

  // ---------------------------------------------------------------------------
  // Children and hit testing

  /** `_children`: avatar, label and delete icon, skipping missing ones. */
  function Children(avatar: Option<Child>, labelChild: Option<Child>, deleteIcon: Option<Child>): (r: seq<Child>)
    ensures |r| == (if avatar.Some? then 1 else 0) + (if labelChild.Some? then 1 else 0) + (if deleteIcon.Some? then 1 else 0)
    ensures avatar.Some? ==> r[0] == avatar.value
    ensures deleteIcon.Some? ==> r[|r| - 1] == deleteIcon.value
    ensures forall c | c in r :: avatar == Some(c) || labelChild == Some(c) || deleteIcon == Some(c)
    ensures (avatar.Some? ==> avatar.value in r) && (labelChild.Some? ==> labelChild.value in r) &&
            (deleteIcon.Some? ==> deleteIcon.value in r)
  {
    (if avatar.Some? then [avatar.value] else []) +
    (if labelChild.Some? then [labelChild.value] else []) +
    (if deleteIcon.Some? then [deleteIcon.value] else [])
  }

  /** The first present one of a list of candidates. */
  function FirstPresent(candidates: seq<Option<Child>>): (r: Option<Child>)
    ensures r.None? <==> forall i | 0 <= i < |candidates| :: candidates[i].None?
    ensures r.Some? ==> r in candidates
  {
    if candidates == [] then None
    else if candidates[0].Some? then candidates[0]
    else
      var rest := FirstPresent(candidates[1..]);
      assert forall i | 1 <= i < |candidates| :: candidates[i] == candidates[1..][i - 1];
      rest
  }

  /** The candidate chosen is the earliest present one. */
  lemma {:induction false} FirstPresentIsEarliest(candidates: seq<Option<Child>>, i: int)
    requires 0 <= i < |candidates| && candidates[i].Some?
    requires forall j | 0 <= j < i :: candidates[j].None?
    ensures FirstPresent(candidates) == candidates[i]
  {
    if i > 0 {
      assert candidates[0].None?;
      FirstPresentIsEarliest(candidates[1..], i - 1);
    }
  }

  /** `hitTest`'s choice of child: nothing outside the chip; right of 66%
      of the width the delete icon, else the labelChild, else the avatar; to the
      left the labelChild, else the avatar. */
  function HitTestChild(inside: bool, fraction: real, avatar: Option<Child>, labelChild: Option<Child>, deleteIcon: Option<Child>): (r: Option<Child>)
    ensures !inside ==> r.None?
    ensures inside && fraction > 0.66 ==> r == FirstPresent([deleteIcon, labelChild, avatar])
    ensures inside && fraction <= 0.66 ==> r == FirstPresent([labelChild, avatar])
  {
    if !inside then None
    else if fraction > 0.66 then FirstPresent([deleteIcon, labelChild, avatar])
    else FirstPresent([labelChild, avatar])
  }

  /** A hit lands on one of the chip's children, on the delete icon only
      on its right part, and on some child whenever the chip has a labelChild. */
  lemma HitLandsOnChild(inside: bool, fraction: real, avatar: Option<Child>, labelChild: Option<Child>, deleteIcon: Option<Child>)
    ensures var r := HitTestChild(inside, fraction, avatar, labelChild, deleteIcon);
            (r.Some? ==> r.value in Children(avatar, labelChild, deleteIcon)) &&
            (inside && labelChild.Some? ==> r.Some?) &&
            (r.Some? && deleteIcon == r && labelChild != r && avatar != r ==> fraction > 0.66)
  {
    var r := HitTestChild(inside, fraction, avatar, labelChild, deleteIcon);
    if inside && labelChild.Some? {
      if fraction > 0.66 {
        assert [deleteIcon, labelChild, avatar][1].Some?;
      } else {
        assert [labelChild, avatar][0].Some?;
      }
    }
  }
}
