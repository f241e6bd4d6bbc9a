/**
 * Day 3: a bank of batteries, each with a one-digit joltage. Turning on
 * `k` of them greedily picks, round by round, the leftmost largest joltage
 * of a sliding window that leaves room for the picks still to come; the
 * on batteries read left to right give the bank's joltage. The source
 * starts each round's scan with
 * `max_idx = 0` instead of the window's left end; `TurnOnAsWritten` keeps
 * that, `TurnOn` starts at the left end.
 */
module Day3 {

  datatype BatterySlot = BatterySlot(on: bool, joltage: nat)

  datatype Bank = Bank(slots: seq<BatterySlot>, onCount: nat)

  /** `Bank::new`: every battery in a slot that is off. */
  function New(batteries: seq<nat>): (r: Bank)
    ensures |r.slots| == |batteries| && r.onCount == 0
    ensures forall i :: 0 <= i < |batteries| ==> !r.slots[i].on && r.slots[i].joltage == batteries[i]
  {
    Bank(seq(|batteries|, i requires 0 <= i < |batteries| => BatterySlot(false, batteries[i])), 0)
  }

  /** `BatterySlot::turn_on`. */
  function SlotTurnOn(s: BatterySlot): (r: BatterySlot)
    ensures r.on && r.joltage == s.joltage
  {
    s.(on := true)
  }

  /** One round's bookkeeping: `slots[idx].turn_on()` and `on_count += 1`. */
  function Light(b: Bank, idx: nat): (r: Bank)
    requires idx < |b.slots|
    ensures |r.slots| == |b.slots| && r.onCount == b.onCount + 1
    ensures forall i :: 0 <= i < |b.slots| ==> r.slots[i].joltage == b.slots[i].joltage
    ensures forall i :: 0 <= i < |b.slots| ==> (r.slots[i].on <==> b.slots[i].on || i == idx)
  {
    Bank(b.slots[idx := SlotTurnOn(b.slots[idx])], b.onCount + 1)
  }

  function Joltages(slots: seq<BatterySlot>): (r: seq<nat>)
    ensures |r| == |slots| && forall i :: 0 <= i < |slots| ==> r[i] == slots[i].joltage
  {
    seq(|slots|, i requires 0 <= i < |slots| => slots[i].joltage)
  }

  // ---------------------------------------------------------------------
  // One round: the scan of a window
  // ---------------------------------------------------------------------

  /**
   * The `for idx in left..=right` scan from `idx` on, carrying the best
   * joltage so far and its index; only a strictly larger joltage replaces
   * them.
   */
  function Scan(js: seq<nat>, idx: nat, right: nat, maxJ: nat, maxIdx: nat): (r: nat)
    requires right < |js|
    ensures r == maxIdx || idx <= r <= right
    decreases right + 1 - idx
  {
    if idx > right then maxIdx
    else if js[idx] > maxJ then Scan(js, idx + 1, right, js[idx], idx)
    else Scan(js, idx + 1, right, maxJ, maxIdx)
  }

  /**
   * What the scan finds: either nothing from `idx` on beats `maxJ` and the
   * carried index comes back, or the leftmost maximum of `[idx, right]`.
   */
  lemma {:induction false} ScanFinds(js: seq<nat>, idx: nat, right: nat, maxJ: nat, maxIdx: nat)
    requires right < |js|
    ensures var r := Scan(js, idx, right, maxJ, maxIdx);
      || (r == maxIdx && forall j :: idx <= j <= right ==> js[j] <= maxJ)
      || (&& idx <= r <= right && js[r] > maxJ
          && (forall j :: idx <= j <= right ==> js[j] <= js[r])
          && (forall j :: idx <= j < r ==> js[j] < js[r]))
    decreases right + 1 - idx
  {
    if idx <= right {
      if js[idx] > maxJ {
        ScanFinds(js, idx + 1, right, js[idx], idx);
      } else {
        ScanFinds(js, idx + 1, right, maxJ, maxIdx);
      }
    }
  }

  /** The intended pick: the leftmost largest joltage of `[left, right]`. */
  function Pick(js: seq<nat>, left: nat, right: nat): (r: nat)
    requires left <= right < |js|
    ensures left <= r <= right
    ensures forall j :: left <= j <= right ==> js[j] <= js[r]
    ensures forall j :: left <= j < r ==> js[j] < js[r]
  {
    ScanFinds(js, left, right, 0, left);
    Scan(js, left, right, 0, left)
  }

  /**
   * The pick as the source writes it, with `max_idx = 0`: slot 0 or a
   * slot of the window.
   */
  function PickAsWritten(js: seq<nat>, left: nat, right: nat): (r: nat)
    requires right < |js|
    ensures r == 0 || left <= r <= right
  {
    Scan(js, left, right, 0, 0)
  }

  /**
   * When some joltage of the window is positive the source's pick is the
   * intended one; otherwise it is slot 0, wherever the window is.
   */
  lemma PickAsWrittenCases(js: seq<nat>, left: nat, right: nat)
    requires right < |js|
    ensures (exists j :: left <= j <= right && js[j] > 0) ==> left <= right && PickAsWritten(js, left, right) == Pick(js, left, right)
    ensures (forall j :: left <= j <= right ==> js[j] == 0) ==> PickAsWritten(js, left, right) == 0
  {
    ScanFinds(js, left, right, 0, 0);
    if left <= right {
      ScanFinds(js, left, right, 0, left);
    }
  }

  // ---------------------------------------------------------------------
  // `Bank::turn_on`
  // ---------------------------------------------------------------------

  /**
   * The slots the `while right_pointer < len` loop picks, in order: pick in
   * `[left, right]`, move `left` past the pick and `right` one on. The scan
   * only reads joltages and turning a slot on changes none, so the picks
   * depend on the joltage row alone.
   */
  function Choices(js: seq<nat>, left: nat, right: nat, asWritten: bool): (r: seq<nat>)
    requires left <= right <= |js|
    ensures |r| == |js| - right
    ensures forall t :: 0 <= t < |r| ==> r[t] < |js|
    decreases |js| - right
  {
    if right == |js| then []
    else
      var idx := if asWritten then PickAsWritten(js, left, right) else Pick(js, left, right);
      [idx] + Choices(js, idx + 1, right + 1, asWritten)
  }

  /**
   * The intended picks: the `t`-th lies in the window `[left, right + t]`
   * past the previous one, so they strictly increase; the first is the
   * leftmost maximum of the first window.
   */
  lemma {:induction false} PicksIncrease(js: seq<nat>, left: nat, right: nat)
    requires left <= right <= |js|
    ensures var r := Choices(js, left, right, false);
      && (forall t :: 0 <= t < |r| ==> left <= r[t] <= right + t)
      && (forall t, u :: 0 <= t < u < |r| ==> r[t] < r[u])
      && (|r| > 0 ==> r[0] == Pick(js, left, right))
    decreases |js| - right
  {
    if right < |js| {
      PicksIncrease(js, Pick(js, left, right) + 1, right + 1);
    }
  }

  /** Turning on the listed slots one after another, counting each. */
  function LightAll(b: Bank, ps: seq<nat>): (r: Bank)
    requires forall t :: 0 <= t < |ps| ==> ps[t] < |b.slots|
    ensures |r.slots| == |b.slots| && r.onCount == b.onCount + |ps|
    decreases |ps|
  {
    if |ps| == 0 then b else LightAll(Light(b, ps[0]), ps[1..])
  }

  /** Lighting changes no joltage, and a slot ends up on exactly when it was on or is listed. */
  lemma {:induction false} LightAllSlots(b: Bank, ps: seq<nat>)
    requires forall t :: 0 <= t < |ps| ==> ps[t] < |b.slots|
    ensures var r := LightAll(b, ps);
      && (forall i :: 0 <= i < |b.slots| ==> r.slots[i].joltage == b.slots[i].joltage)
      && (forall i :: 0 <= i < |b.slots| ==> (r.slots[i].on <==> b.slots[i].on || i in ps))
    decreases |ps|
  {
    if |ps| > 0 {
      LightAllSlots(Light(b, ps[0]), ps[1..]);
      assert ps == [ps[0]] + ps[1..];
    }
  }

  /** `Bank::turn_on` exactly as written; the source panics on a bank already on or on `k` above the slot count. */
  function TurnOnAsWritten(b: Bank, k: nat): (r: Bank)
    requires b.onCount == 0 && k <= |b.slots|
    ensures |r.slots| == |b.slots| && r.onCount == k
    ensures forall i :: 0 <= i < |b.slots| ==> r.slots[i].joltage == b.slots[i].joltage
    ensures forall i :: 0 <= i < |b.slots| && b.slots[i].on ==> r.slots[i].on
  {
    var ps := Choices(Joltages(b.slots), 0, |b.slots| - k, true);
    LightAllSlots(b, ps);
    LightAll(b, ps)
  }

  /** The indices of the slots that are on. */
  function LitSlots(slots: seq<BatterySlot>): set<nat>
  {
    set i: nat | i < |slots| && slots[i].on
  }

  /** A strictly increasing list has as many distinct entries as it is long. */
  lemma {:induction false} IncreasingCard(ps: seq<nat>)
    requires forall t, u :: 0 <= t < u < |ps| ==> ps[t] < ps[u]
    ensures |set t | 0 <= t < |ps| :: ps[t]| == |ps|
    decreases |ps|
  {
    if |ps| > 0 {
      var rest := ps[1..];
      IncreasingCard(rest);
      var all := set t | 0 <= t < |ps| :: ps[t];
      var tail := set t | 0 <= t < |rest| :: rest[t];
      assert all == {ps[0]} + tail by {
        forall v | v in all ensures v in {ps[0]} + tail {
          var t :| 0 <= t < |ps| && ps[t] == v;
          if t > 0 {
            assert rest[t - 1] == v;
          }
        }
      }
      assert ps[0] !in tail;
    }
  }

  /** Lighting a strictly increasing list of slots on a bank with none on lights that many. */
  lemma LightIncreasing(b: Bank, ps: seq<nat>)
    requires forall t :: 0 <= t < |ps| ==> ps[t] < |b.slots|
    requires forall t, u :: 0 <= t < u < |ps| ==> ps[t] < ps[u]
    ensures (forall i :: 0 <= i < |b.slots| ==> !b.slots[i].on) ==> |LitSlots(LightAll(b, ps).slots)| == |ps|
  {
    if forall i :: 0 <= i < |b.slots| ==> !b.slots[i].on {
      LightAllSlots(b, ps);
      IncreasingCard(ps);
      var r := LightAll(b, ps);
      assert LitSlots(r.slots) == set t | 0 <= t < |ps| :: ps[t];
    }
  }

  /**
   * `Bank::turn_on` with each scan starting at the window's left end. The
   * picks strictly increase, so on a bank with every slot off exactly `k`
   * slots end up on.
   */
  function TurnOn(b: Bank, k: nat): (r: Bank)
    requires b.onCount == 0 && k <= |b.slots|
    ensures |r.slots| == |b.slots| && r.onCount == k
    ensures forall i :: 0 <= i < |b.slots| ==> r.slots[i].joltage == b.slots[i].joltage
    ensures forall i :: 0 <= i < |b.slots| && b.slots[i].on ==> r.slots[i].on
    ensures (forall i :: 0 <= i < |b.slots| ==> !b.slots[i].on) ==> |LitSlots(r.slots)| == k
  {
    var ps := Choices(Joltages(b.slots), 0, |b.slots| - k, false);
    LightAllSlots(b, ps);
    PicksIncrease(Joltages(b.slots), 0, |b.slots| - k);
    LightIncreasing(b, ps);
    LightAll(b, ps)
  }

  // ---------------------------------------------------------------------
  // `Bank::calculate_joltage`
  // ---------------------------------------------------------------------

  /** The joltages of the on slots, in slot order (`filter(|slot| slot.on)`). */
  function OnJoltages(slots: seq<BatterySlot>): (r: seq<nat>)
    ensures |r| <= |slots|
  {
    if |slots| == 0 then []
    else
      var last := slots[|slots| - 1];
      OnJoltages(slots[..|slots| - 1]) + (if last.on then [last.joltage] else [])
  }

  /**
   * The `fold` of `calculate_joltage` from on-slot number `idx`, adding
   * `joltage * 10^(on_count - idx - 1)`.
   */
  function JoltageFold(ds: seq<nat>, onCount: nat, idx: nat, acc: nat): nat
    requires idx + |ds| <= onCount
    decreases |ds|
  {
    if |ds| == 0 then acc
    else JoltageFold(ds[1..], onCount, idx + 1, acc + ds[0] * Pow10(onCount - idx - 1))
  }

  /** `calculate_joltage`; the `usize` subtraction needs no more on slots than `on_count`. */
  function CalculateJoltage(b: Bank): nat
    requires |OnJoltages(b.slots)| <= b.onCount
  {
    JoltageFold(OnJoltages(b.slots), b.onCount, 0, 0)
  }

  /** The number the digits spell, most significant first. */
  function DigitsNumber(ds: seq<nat>): nat
  {
    if |ds| == 0 then 0 else DigitsNumber(ds[..|ds| - 1]) * 10 + ds[|ds| - 1]
  }

  /** `10_u64.pow(e)`. */
  function Pow10(e: nat): (r: nat)
    ensures r >= 1
  {
    if e == 0 then 1 else 10 * Pow10(e - 1)
  }

  /** Reading the leading digit off: it weighs `10^(n-1)`. */
  lemma {:induction false} DigitsNumberFront(ds: seq<nat>)
    requires |ds| > 0
    ensures DigitsNumber(ds) == ds[0] * Pow10(|ds| - 1) + DigitsNumber(ds[1..])
  {
    var n := |ds|;
    if n > 1 {
      var init := ds[..n - 1];
      DigitsNumberFront(init);
      assert init[1..] == ds[1..][..n - 2];
      assert init[0] == ds[0];
      var p := Pow10(n - 2);
      assert Pow10(n - 1) == 10 * p;
      var rest := DigitsNumber(init[1..]);
      ShiftDigit(ds[0], p, rest, ds[n - 1]);
      assert DigitsNumber(ds[1..]) == rest * 10 + ds[n - 1];
    }
  }

  lemma {:induction false} JoltageFoldValue(ds: seq<nat>, onCount: nat, idx: nat, acc: nat)
    requires idx + |ds| <= onCount
    ensures JoltageFold(ds, onCount, idx, acc) == acc + DigitsNumber(ds) * Pow10(onCount - idx - |ds|)
    decreases |ds|
  {
    if |ds| > 0 {
      var m := onCount - idx - |ds|;
      JoltageFoldValue(ds[1..], onCount, idx + 1, acc + ds[0] * Pow10(onCount - idx - 1));
      DigitsNumberFront(ds);
      PowerAdd(|ds| - 1, m);
      Distribute(ds[0], Pow10(|ds| - 1), DigitsNumber(ds[1..]), Pow10(m));
    }
  }

  lemma ShiftDigit(a: int, p: int, d: int, e: int)
    ensures (a * p + d) * 10 + e == a * (10 * p) + (d * 10 + e)
  {
  }

  lemma Distribute(a: int, h: int, t: int, l: int)
    ensures (a * h + t) * l == a * (h * l) + t * l
  {
  }

  lemma {:induction false} PowerAdd(a: nat, b: nat)
    ensures Pow10(a) * Pow10(b) == Pow10(a + b)
    decreases a
  {
    if a > 0 {
      PowerAdd(a - 1, b);
      MulAssoc(10, Pow10(a - 1), Pow10(b));
    }
  }

  lemma MulAssoc(x: int, y: int, z: int)
    ensures (x * y) * z == x * (y * z)
  {
  }

  /**
   * When the bank has exactly as many on slots as it counts, the joltage
   * is the number the on joltages spell in slot order.
   */
  lemma CalculateJoltageIsNumber(b: Bank)
    requires |OnJoltages(b.slots)| == b.onCount
    ensures CalculateJoltage(b) == DigitsNumber(OnJoltages(b.slots))
  {
    JoltageFoldValue(OnJoltages(b.slots), b.onCount, 0, 0);
  }

  // ---------------------------------------------------------------------
  // What the intended loop turns on
  // ---------------------------------------------------------------------

  /** The joltages at the listed slots, in list order. */
  function Spell(js: seq<nat>, p: seq<nat>): (r: seq<nat>)
    requires forall t :: 0 <= t < |p| ==> p[t] < |js|
    ensures |r| == |p| && forall t :: 0 <= t < |p| ==> r[t] == js[p[t]]
  {
    seq(|p|, t requires 0 <= t < |p| => js[p[t]])
  }

  /** Spelling with indices that all lie before the last slot ignores the last slot. */
  lemma SpellOfInit(slots: seq<BatterySlot>, q: seq<nat>)
    requires |slots| > 0 && forall t :: 0 <= t < |q| ==> q[t] < |slots| - 1
    ensures Spell(Joltages(slots), q) == Spell(Joltages(slots[..|slots| - 1]), q)
  {
  }

  lemma SpellSnoc(js: seq<nat>, q: seq<nat>, x: nat)
    requires x < |js| && forall t :: 0 <= t < |q| ==> q[t] < |js|
    ensures Spell(js, q + [x]) == Spell(js, q) + [js[x]]
  {
  }

  /** In a strictly increasing list every entry before the last is smaller than the last. */
  lemma BelowLast(p: seq<nat>, k: nat)
    requires forall i, j :: 0 <= i < j < |p| ==> p[i] < p[j]
    requires k < |p|
    ensures k < |p| - 1 ==> p[k] < p[|p| - 1]
  {
  }

  /** A non-empty list of entries below `m` needs `m > 0`. */
  lemma BoundedIndices(p: seq<nat>, m: nat)
    requires forall i :: 0 <= i < |p| ==> p[i] < m
    ensures |p| > 0 ==> m > 0
  {
    if |p| > 0 {
      assert p[0] < m;
    }
  }

  /** When the last slot is on, it is the last listed index and the rest of the list covers the other on slots. */
  lemma LastSlotOn(slots: seq<BatterySlot>, p: seq<nat>)
    requires forall i, j :: 0 <= i < j < |p| ==> p[i] < p[j]
    requires forall i :: 0 <= i < |p| ==> p[i] < |slots|
    requires forall i :: 0 <= i < |slots| ==> (slots[i].on <==> i in p)
    requires |slots| > 0 && slots[|slots| - 1].on
    ensures |p| > 0 && p == p[..|p| - 1] + [|slots| - 1]
    ensures forall t :: 0 <= t < |p| - 1 ==> p[t] < |slots| - 1
    ensures forall i :: 0 <= i < |slots| - 1 ==> (slots[i].on <==> i in p[..|p| - 1])
  {
    var n := |slots|;
    var k :| 0 <= k < |p| && p[k] == n - 1;
    assert p[|p| - 1] < n;
    BelowLast(p, k);
    assert k == |p| - 1;
    var q := p[..|p| - 1];
    forall t | 0 <= t < |q| ensures q[t] < n - 1 {
      assert p[t] < p[|p| - 1];
    }
    forall i | 0 <= i < n - 1 ensures slots[i].on <==> i in q {
      if i in p {
        var t :| 0 <= t < |p| && p[t] == i;
        assert t < |p| - 1;
        assert q[t] == i;
      }
    }
  }

  /** When the last slot is off, no listed index points at it. */
  lemma LastSlotOff(slots: seq<BatterySlot>, p: seq<nat>)
    requires forall i :: 0 <= i < |p| ==> p[i] < |slots|
    requires forall i :: 0 <= i < |slots| ==> (slots[i].on <==> i in p)
    requires |slots| > 0 && !slots[|slots| - 1].on
    ensures forall t :: 0 <= t < |p| ==> p[t] < |slots| - 1
  {
    forall t | 0 <= t < |p| ensures p[t] < |slots| - 1 {
      assert p[t] != |slots| - 1;
    }
  }

  /** Filtering the on slots when the on slots are exactly a strictly increasing index list. */
  lemma {:induction false} OnJoltagesOfIndices(slots: seq<BatterySlot>, p: seq<nat>)
    requires forall i, j :: 0 <= i < j < |p| ==> p[i] < p[j]
    requires forall i :: 0 <= i < |p| ==> p[i] < |slots|
    requires forall i :: 0 <= i < |slots| ==> (slots[i].on <==> i in p)
    ensures OnJoltages(slots) == Spell(Joltages(slots), p)
    decreases |slots|
  {
    if |slots| > 0 {
      var n := |slots|;
      var init := slots[..n - 1];
      if slots[n - 1].on {
        LastSlotOn(slots, p);
        var q := p[..|p| - 1];
        OnJoltagesOfIndices(init, q);
        assert OnJoltages(slots) == OnJoltages(init) + [slots[n - 1].joltage];
        SpellSnoc(Joltages(slots), q, n - 1);
        SpellOfInit(slots, q);
      } else {
        LastSlotOff(slots, p);
        OnJoltagesOfIndices(init, p);
        assert OnJoltages(slots) == OnJoltages(init);
        SpellOfInit(slots, p);
      }
    } else {
      BoundedIndices(p, |slots|);
    }
  }

  /** Turning on `k` batteries of a fresh bank (as intended) lights exactly the `k` picked slots. */
  lemma TurnOnLightsPicks(batteries: seq<nat>, k: nat)
    requires k <= |batteries|
    ensures var b := TurnOn(New(batteries), k);
      var p := Choices(batteries, 0, |batteries| - k, false);
      && |p| == k
      && forall i :: 0 <= i < |batteries| ==> (b.slots[i].on <==> i in p)
  {
    var initial := New(batteries);
    assert Joltages(initial.slots) == batteries;
    LightAllSlots(initial, Choices(batteries, 0, |batteries| - k, false));
  }

  /**
   * A bank whose on slots are exactly a strictly increasing index list,
   * counted correctly, reads the number those slots' joltages spell.
   */
  lemma SpelledByIndices(b: Bank, p: seq<nat>)
    requires forall i, j :: 0 <= i < j < |p| ==> p[i] < p[j]
    requires forall i :: 0 <= i < |p| ==> p[i] < |b.slots|
    requires forall i :: 0 <= i < |b.slots| ==> (b.slots[i].on <==> i in p)
    requires b.onCount == |p|
    ensures OnJoltages(b.slots) == Spell(Joltages(b.slots), p)
    ensures CalculateJoltage(b) == DigitsNumber(OnJoltages(b.slots))
  {
    OnJoltagesOfIndices(b.slots, p);
    CalculateJoltageIsNumber(b);
  }

  /**
   * The joltage of a fresh bank after turning on `k` batteries (as
   * intended) is the number the picked joltages spell in slot order.
   */
  lemma TurnOnSpellsPicks(batteries: seq<nat>, k: nat)
    requires k <= |batteries|
    ensures var b := TurnOn(New(batteries), k);
      var p := Choices(batteries, 0, |batteries| - k, false);
      && OnJoltages(b.slots) == Spell(batteries, p)
      && CalculateJoltage(b) == DigitsNumber(Spell(batteries, p))
  {
    var b := TurnOn(New(batteries), k);
    var p := Choices(batteries, 0, |batteries| - k, false);
    assert Joltages(b.slots) == batteries;
    TurnOnLightsPicks(batteries, k);
    PicksIncrease(batteries, 0, |batteries| - k);
    SpelledByIndices(b, p);
  }

  /** With every joltage at least 1 the source's scan and the intended one pick the same slots. */
  lemma {:induction false} ChoicesAgreeWhenPositive(js: seq<nat>, left: nat, right: nat)
    requires left <= right <= |js|
    requires forall i :: 0 <= i < |js| ==> js[i] >= 1
    ensures Choices(js, left, right, true) == Choices(js, left, right, false)
    decreases |js| - right
  {
    if right < |js| {
      assert js[left] > 0;
      PickAsWrittenCases(js, left, right);
      ChoicesAgreeWhenPositive(js, Pick(js, left, right) + 1, right + 1);
    }
  }

  lemma AsWrittenAgreesWhenPositive(b: Bank, k: nat)
    requires b.onCount == 0 && k <= |b.slots|
    requires forall i :: 0 <= i < |b.slots| ==> b.slots[i].joltage >= 1
    ensures TurnOnAsWritten(b, k) == TurnOn(b, k)
  {
    ChoicesAgreeWhenPositive(Joltages(b.slots), 0, |b.slots| - k);
  }

  /** The picks on the bank 0,5,0 with two batteries to turn on. */
  lemma ZeroJoltagePicks()
    ensures Choices([0, 5, 0], 0, 1, true) == [1, 0]
    ensures Choices([0, 5, 0], 0, 1, false) == [1, 2]
  {
    var js := [0, 5, 0];
    assert Scan(js, 2, 1, 5, 1) == 1;
    assert PickAsWritten(js, 0, 1) == 1;
    assert Pick(js, 0, 1) == 1;
    assert Scan(js, 3, 2, 0, 0) == 0;
    assert PickAsWritten(js, 2, 2) == 0;
    assert Pick(js, 2, 2) == 2;
  }

  /** The bank the source's loop leaves behind on 0,5,0 with two batteries to turn on. */
  lemma ZeroJoltageBankAsWritten()
    ensures TurnOnAsWritten(New([0, 5, 0]), 2) == Bank([BatterySlot(true, 0), BatterySlot(true, 5), BatterySlot(false, 0)], 2)
  {
    var b := New([0, 5, 0]);
    assert b == Bank([BatterySlot(false, 0), BatterySlot(false, 5), BatterySlot(false, 0)], 0);
    assert Joltages(b.slots) == [0, 5, 0];
    ZeroJoltagePicks();
    var b1 := Light(b, 1);
    assert b1 == Bank([BatterySlot(false, 0), BatterySlot(true, 5), BatterySlot(false, 0)], 1);
    var b2 := Light(b1, 0);
    assert b2 == Bank([BatterySlot(true, 0), BatterySlot(true, 5), BatterySlot(false, 0)], 2);
    assert [1, 0][1..] == [0] && [0][1..] == [];
    assert LightAll(b1, [0]) == b2;
  }

  /** The bank the intended loop leaves behind on 0,5,0 with two batteries to turn on. */
  lemma ZeroJoltageBankIntended()
    ensures TurnOn(New([0, 5, 0]), 2) == Bank([BatterySlot(false, 0), BatterySlot(true, 5), BatterySlot(true, 0)], 2)
  {
    var b := New([0, 5, 0]);
    assert b == Bank([BatterySlot(false, 0), BatterySlot(false, 5), BatterySlot(false, 0)], 0);
    assert Joltages(b.slots) == [0, 5, 0];
    ZeroJoltagePicks();
    var b1 := Light(b, 1);
    assert b1 == Bank([BatterySlot(false, 0), BatterySlot(true, 5), BatterySlot(false, 0)], 1);
    var b2 := Light(b1, 2);
    assert b2 == Bank([BatterySlot(false, 0), BatterySlot(true, 5), BatterySlot(true, 0)], 2);
    assert [1, 2][1..] == [2] && [2][1..] == [];
    assert LightAll(b1, [2]) == b2;
  }

  /**
   * The bank 0,5,0 with two batteries to turn on: the source's second round
   * finds no positive joltage in its window and lights slot 0, reading 5.
   */
  lemma ZeroJoltageAsWritten()
    ensures var b := TurnOnAsWritten(New([0, 5, 0]), 2);
      |OnJoltages(b.slots)| == 2 && CalculateJoltage(b) == 5
  {
    ZeroJoltageBankAsWritten();
    var slots := [BatterySlot(true, 0), BatterySlot(true, 5), BatterySlot(false, 0)];
    assert slots[..2][..1][..0] == [];
    assert OnJoltages(slots) == [0, 5];
    assert [0, 5][1..][1..] == [];
  }

  /** The same bank as intended: 5 and then the last 0 are lit, reading 50. */
  lemma ZeroJoltageIntended()
    ensures var b := TurnOn(New([0, 5, 0]), 2);
      |OnJoltages(b.slots)| == 2 && CalculateJoltage(b) == 50
  {
    ZeroJoltageBankIntended();
    var slots := [BatterySlot(false, 0), BatterySlot(true, 5), BatterySlot(true, 0)];
    assert slots[..2][..1][..0] == [];
    assert OnJoltages(slots) == [5, 0];
    assert Pow10(1) == 10;
    assert [5, 0][1..] == [0] && [0][1..] == [];
    assert JoltageFold([0], 2, 1, 50) == 50;
    assert JoltageFold([5, 0], 2, 0, 0) == 50;
  }

  /**
   * The bank 0,0,0 with two batteries to turn on, as the source's loop
   * runs it: both windows hold only zeros, so both rounds pick slot 0.
   * The count says two, but only one slot is on.
   */
  lemma AllZeroAsWritten()
    ensures var b := TurnOnAsWritten(New([0, 0, 0]), 2);
      && b.onCount == 2
      && b.slots[0].on && !b.slots[1].on && !b.slots[2].on
      && |LitSlots(b.slots)| == 1
  {
    var js := [0, 0, 0];
    var b := New(js);
    assert Joltages(b.slots) == js;
    PickAsWrittenCases(js, 0, 1);
    PickAsWrittenCases(js, 1, 2);
    assert Choices(js, 0, 1, true) == [0, 0];
    LightAllSlots(b, [0, 0]);
    var r := TurnOnAsWritten(b, 2);
    assert LitSlots(r.slots) == {0};
  }
}
