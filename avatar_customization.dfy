/**
 * The avatar selection engine: six slots of cosmetic options, one current
 * index per slot (`-1` meaning "none"), an exclusivity gate between the
 * one-piece outfit and the separate top/bottom/shoes, and a bitmask of the
 * base-body parts the worn options hide.
 *
 * The C# `int` bitmasks are modelled as the set of their bit positions:
 * `m & ~f` is `m - f`, `m | f` is `m + f`, `(m & f) == 0` is `m !! f` and
 * `(m & (1 << k)) != 0` is `k in m`.  Renderer visibility is a `bool` per
 * renderer handle.
 */
module AvatarModel {

  datatype Option<T> = None | Some(value: T)

  // ---------------------------------------------------------------- numbers

  const MinInt32: int := -0x8000_0000
  const MaxInt32: int := 0x7FFF_FFFF

  predicate IsInt32(x: int) { MinInt32 <= x <= MaxInt32 }

  /** C# `int` addition: outside the 32-bit range it wraps around. */
  function AddInt32(a: int, b: int): (r: int)
    requires IsInt32(a) && IsInt32(b)
    ensures IsInt32(r)
    ensures IsInt32(a + b) ==> r == a + b
    ensures r == a + b || r == a + b - 0x1_0000_0000 || r == a + b + 0x1_0000_0000
  {
    var s := a + b;
    if s > MaxInt32 then s - 0x1_0000_0000
    else if s < MinInt32 then s + 0x1_0000_0000
    else s
  }

  /** `1 << k`. */
  function Pow2(k: nat): (r: nat)
    ensures r >= 1
  {
    if k == 0 then 1 else 2 * Pow2(k - 1)
  }

  lemma {:induction false} Pow2Grows(i: nat, j: nat)
    requires i < j
    ensures 2 * Pow2(i) <= Pow2(j)
  {
    if i + 1 < j {
      Pow2Grows(i, j - 1);
    }
  }

  /** A power of two has exactly one bit position `k` with `2^k <= n < 2^(k+1)`. */
  lemma {:induction false} Pow2BitPosition(k: nat, index: nat)
    requires Pow2(index) <= Pow2(k) < 2 * Pow2(index)
    ensures index == k
  {
    if index < k {
      Pow2Grows(index, k);
    } else if k < index {
      Pow2Grows(k, index);
    }
  }

  /** One halving step of `BitmaskConvertToIndex` keeps the bit-position bracket. */
  lemma HalvingKeepsBracket(p: nat, b: int, m: int)
    requires p >= 1 && b > 1 && p * b <= m < p * (b + 1)
    ensures (2 * p) * (b / 2) <= m < (2 * p) * (b / 2 + 1)
  {
    var h := b / 2;
    if b == 2 * h {
      assert p * b == (2 * p) * h;
      assert p * (b + 1) == (2 * p) * h + p;
      assert (2 * p) * (h + 1) == (2 * p) * h + 2 * p;
    } else {
      assert b == 2 * h + 1;
      assert p * b == (2 * p) * h + p;
      assert p * (b + 1) == (2 * p) * (h + 1);
    }
  }

  // ----------------------------------------------------------- body parts

  /** A set of bit positions: the `BaseAvatar` flags of an `int` bitmask. */
  type Mask = set<nat>

  /** The base-body parts that an option can hide (`BaseAvatar`). */
  datatype BodyPart =
    | Head | Hands | ArmsLower | ArmsUpper | Shoulders
    | TorsoUpper | TorsoMiddle | TorsoBottom | Hips
    | LegsUpper | LegsKnee | LegsLower | LegsFeet
  {
    /** Position of the part's flag in the mask. */
    function Bit(): nat
    {
      match this
      case Head => 0
      case Hands => 1
      case ArmsLower => 2
      case ArmsUpper => 3
      case Shoulders => 4
      case TorsoUpper => 5
      case TorsoMiddle => 6
      case TorsoBottom => 7
      case Hips => 8
      case LegsUpper => 9
      case LegsKnee => 10
      case LegsLower => 11
      case LegsFeet => 12
    }

    /** The enum's explicit integer value, a single bit. */
    function Value(): int
    {
      match this
      case Head => 1
      case Hands => 2
      case ArmsLower => 4
      case ArmsUpper => 8
      case Shoulders => 16
      case TorsoUpper => 32
      case TorsoMiddle => 64
      case TorsoBottom => 128
      case Hips => 256
      case LegsUpper => 512
      case LegsKnee => 1024
      case LegsLower => 2048
      case LegsFeet => 4096
    }
  }

  /** The parts in declaration order, as `Enum.GetValues` lists them. */
  const AllParts: seq<BodyPart> :=
    [BodyPart.Head, Hands, ArmsLower, ArmsUpper, Shoulders, TorsoUpper, TorsoMiddle,
     TorsoBottom, Hips, LegsUpper, LegsKnee, LegsLower, LegsFeet]

  /** The `k`-th enum value is the flag `1 << k`. */
  lemma AllPartsBits(k: nat)
    requires k < |AllParts|
    ensures AllParts[k].Bit() == k
    ensures AllParts[k].Value() == Pow2(k)
  {
    assert Pow2(1) == 2 && Pow2(2) == 4 && Pow2(3) == 8 && Pow2(4) == 16;
    assert Pow2(5) == 32 && Pow2(6) == 64 && Pow2(7) == 128 && Pow2(8) == 256;
    assert Pow2(9) == 512 && Pow2(10) == 1024 && Pow2(11) == 2048 && Pow2(12) == 4096;
  }

  // ---------------------------------------------------------------- slots

  /** The six customization slots, in the order the engine visits them. */
  datatype Slot = Accessories | Head | Outfit | Top | Bottom | Shoes
  {
    /** The slot's position in the per-slot index array. */
    function Index(): (i: nat)
      ensures i < 6
    {
      match this
      case Accessories => 0
      case Head => 1
      case Outfit => 2
      case Top => 3
      case Bottom => 4
      case Shoes => 5
    }
  }

  /** The slots in declaration order, as `Enum.GetValues` lists them. */
  const AllSlots: seq<Slot> := [Accessories, Slot.Head, Outfit, Top, Bottom, Shoes]

  lemma AllSlotsIndex(i: nat)
    requires i < |AllSlots|
    ensures AllSlots[i].Index() == i
  {
  }

  /** The "none selected" index. */
  const DefaultIndex: int := -1

  /** A selectable option: a renderer handle and the body parts it hides. */
  datatype AvatarCustom = AvatarCustom(renderer: nat, baseAvatar: Mask)

  /** The six configured option arrays; fixed after loading. */
  datatype Registry = Registry(
    accessories: seq<AvatarCustom>,
    head: seq<AvatarCustom>,
    outfit: seq<AvatarCustom>,
    top: seq<AvatarCustom>,
    bottom: seq<AvatarCustom>,
    shoes: seq<AvatarCustom>)
  {
    /** The option array of a slot: the arrays are declared in slot order. */
    function Options(slot: Slot): (r: seq<AvatarCustom>)
      ensures r == [accessories, head, outfit, top, bottom, shoes][slot.Index()]
    {
      match slot
      case Accessories => accessories
      case Head => head
      case Outfit => outfit
      case Top => top
      case Bottom => bottom
      case Shoes => shoes
    }

    /** C# arrays hold at most `int.MaxValue` elements, and every handle names a renderer. */
    ghost predicate Valid(rendererCount: nat)
    {
      forall slot: Slot ::
        |Options(slot)| <= MaxInt32 &&
        forall c :: c in Options(slot) ==> c.renderer < rendererCount
    }
  }

  // ------------------------------------------------------ index arithmetic

  /**
   * The normalisation `GetAvatarCustom(avatar, ref index, …)` applies: a
   * single wrap step (below `-1` to the last option, at or past the end to
   * "none"), not a modulo.
   */
  function Wrap(index: int, n: nat): (r: int)
    ensures -1 <= r < n
    ensures -1 <= index < n ==> r == index
    ensures index < DefaultIndex ==> r == n - 1
    ensures index >= n ==> r == DefaultIndex
  {
    if index < DefaultIndex then n - 1
    else if index >= n then DefaultIndex
    else index
  }

  /** The option at a normalised index, `None` for the "none" index. */
  function OptionAt(options: seq<AvatarCustom>, index: int): (o: Option<AvatarCustom>)
    requires -1 <= index < |options|
    ensures o.None? <==> index == DefaultIndex
  {
    if index == DefaultIndex then None else Some(options[index])
  }

  /** The index a change request moves a slot to: the drawn value when random, else current + increment. */
  function NextIndex(current: int, n: nat, increment: int, random: bool, draw: int): (r: int)
    requires IsInt32(current) && IsInt32(increment)
    ensures -1 <= r < n
    ensures random && -1 <= draw < n ==> r == draw
  {
    Wrap(if random then draw else AddInt32(current, increment), n)
  }

  /** A step up past the last option lands on "none", however far it overshoots: one wrap, not a modulo. */
  lemma OvershootLandsOnNone(index: int, n: nat, increment: int)
    requires -1 <= index < n && IsInt32(increment) && 0 < increment
    requires n <= index + increment <= MaxInt32
    ensures NextIndex(index, n, increment, false, 0) == DefaultIndex
  {
  }

  /** A step down past "none" lands on the last option, however far it undershoots. */
  lemma UndershootLandsOnLast(index: int, n: nat, increment: int)
    requires -1 <= index < n <= MaxInt32 && IsInt32(increment) && increment < 0
    requires MinInt32 <= index + increment < DefaultIndex
    ensures NextIndex(index, n, increment, false, 0) == n - 1
  {
  }

  /** Where `k` presses of the increment (`delta == 1`) or decrement (`delta == -1`) button leave a slot. */
  function Presses(index: int, n: nat, delta: int, k: nat): (r: int)
    requires -1 <= index < n <= MaxInt32 && (delta == 1 || delta == -1)
    ensures -1 <= r < n
    decreases k
  {
    if k == 0 then index else Presses(NextIndex(index, n, delta, false, 0), n, delta, k - 1)
  }

  /** Increment walks up through the options one by one. */
  lemma {:induction false} PressesUp(index: int, n: nat, k: nat)
    requires -1 <= index && index + k < n <= MaxInt32
    ensures Presses(index, n, 1, k) == index + k
    decreases k
  {
    if k > 0 {
      PressesUp(index + 1, n, k - 1);
    }
  }

  /** Decrement walks down through the options one by one. */
  lemma {:induction false} PressesDown(index: int, n: nat, k: nat)
    requires -1 <= index - k && index < n <= MaxInt32
    ensures Presses(index, n, -1, k) == index - k
    decreases k
  {
    if k > 0 {
      PressesDown(index - 1, n, k - 1);
    }
  }

  lemma {:induction false} PressesCompose(index: int, n: nat, delta: int, a: nat, b: nat)
    requires -1 <= index < n <= MaxInt32 && (delta == 1 || delta == -1)
    ensures Presses(index, n, delta, a + b) == Presses(Presses(index, n, delta, a), n, delta, b)
    decreases a
  {
    if a > 0 {
      PressesCompose(NextIndex(index, n, delta, false, 0), n, delta, a - 1, b);
    }
  }

  /** From "none", increment visits `0, 1, …, n-1` and then "none" again. */
  lemma {:induction false} IncrementFromNone(n: nat)
    requires n <= MaxInt32
    ensures forall k: nat :: 1 <= k <= n ==> Presses(DefaultIndex, n, 1, k) == k - 1
    ensures Presses(DefaultIndex, n, 1, n + 1) == DefaultIndex
  {
    forall k: nat | 1 <= k <= n
      ensures Presses(DefaultIndex, n, 1, k) == k - 1
    {
      PressesUp(DefaultIndex, n, k);
    }
    PressesUp(DefaultIndex, n, n);
    PressesCompose(DefaultIndex, n, 1, n, 1);
  }

  /** Increment brings every index back after `n + 1` presses. */
  lemma {:induction false} IncrementPeriod(index: int, n: nat)
    requires -1 <= index < n <= MaxInt32
    ensures Presses(index, n, 1, n + 1) == index
  {
    var up := n - 1 - index;
    PressesUp(index, n, up);
    PressesCompose(index, n, 1, up, 1);
    assert Presses(index, n, 1, up + 1) == DefaultIndex;
    PressesUp(DefaultIndex, n, index + 1);
    PressesCompose(index, n, 1, up + 1, index + 1);
  }

  /**
   * From "none", decrement wraps to the last option and visits
   * `n-1, n-2, …, 0` and then "none" again.
   */
  lemma {:induction false} DecrementFromNone(n: nat)
    requires n <= MaxInt32
    ensures forall k: nat :: 1 <= k <= n ==> Presses(DefaultIndex, n, -1, k) == n - k
    ensures Presses(DefaultIndex, n, -1, n + 1) == DefaultIndex
  {
    forall k: nat | 1 <= k <= n
      ensures Presses(DefaultIndex, n, -1, k) == n - k
    {
      PressesCompose(DefaultIndex, n, -1, 1, k - 1);
      PressesDown(n - 1, n, k - 1);
    }
    PressesCompose(DefaultIndex, n, -1, 1, n);
    PressesDown(n - 1, n, n);
  }

  /** Decrement brings every index back after `n + 1` presses. */
  lemma {:induction false} DecrementPeriod(index: int, n: nat)
    requires -1 <= index < n <= MaxInt32
    ensures Presses(index, n, -1, n + 1) == index
  {
    var down := index + 1;
    PressesDown(index, n, down);
    PressesCompose(index, n, -1, down, 1);
    assert Presses(index, n, -1, down + 1) == n - 1;
    PressesDown(n - 1, n, n - 1 - index);
    PressesCompose(index, n, -1, down + 1, n - 1 - index);
  }

  // ------------------------------------------------------------ selection

  /** Every slot's index lies in `[-1, length - 1]`. */
  ghost predicate InRange(reg: Registry, sel: seq<int>)
  {
    |sel| == |AllSlots| &&
    forall slot: Slot :: -1 <= sel[slot.Index()] < |reg.Options(slot)|
  }

  /** An Outfit is never worn over a full Top, Bottom and Shoes set. */
  predicate Exclusive(sel: seq<int>)
    requires |sel| == |AllSlots|
  {
    !(sel[Outfit.Index()] != DefaultIndex &&
      sel[Top.Index()] != DefaultIndex &&
      sel[Bottom.Index()] != DefaultIndex &&
      sel[Shoes.Index()] != DefaultIndex)
  }

  /**
   * The exclusivity gate between Outfit and Top/Bottom/Shoes.  Accessories
   * and Head are never gated; an Outfit change is rejected exactly when it
   * would put an Outfit over a full Top, Bottom and Shoes set, and a Top,
   * Bottom or Shoes change exactly when an Outfit is worn.
   */
  function Allows(sel: seq<int>, slot: Slot): (r: bool)
    requires |sel| == |AllSlots|
    ensures slot == Accessories || slot == Slot.Head ==> r
    ensures slot == Outfit ==> (!r <==> !Exclusive(sel[Outfit.Index() := 0]))
    ensures slot in {Top, Bottom, Shoes} ==> (!r <==> sel[Outfit.Index()] != DefaultIndex)
  {
    match slot
    case Outfit =>
      !(sel[Top.Index()] != DefaultIndex &&
        sel[Bottom.Index()] != DefaultIndex &&
        sel[Shoes.Index()] != DefaultIndex)
    case Top | Bottom | Shoes => sel[Outfit.Index()] == DefaultIndex
    case _ => true
  }

  /** A change the gate lets through, to any index, keeps an Outfit off a full Top, Bottom and Shoes set. */
  lemma GateKeepsExclusive(sel: seq<int>, slot: Slot, v: int)
    requires |sel| == |AllSlots| && Exclusive(sel) && Allows(sel, slot)
    ensures Exclusive(sel[slot.Index() := v])
  {
  }

  /**
   * The gate is asymmetric: an Outfit may be put on, or changed, beside one
   * or two separate pieces, as long as one of Top, Bottom and Shoes is "none".
   */
  lemma OutfitBesideSeparates(sel: seq<int>, v: int)
    requires |sel| == |AllSlots|
    requires sel[Top.Index()] == DefaultIndex || sel[Bottom.Index()] == DefaultIndex ||
             sel[Shoes.Index()] == DefaultIndex
    ensures Allows(sel, Outfit) && Exclusive(sel[Outfit.Index() := v])
  {
  }

  /** The body parts an option hides; none for "none". */
  function Flags(o: Option<AvatarCustom>): Mask
  {
    match o
    case None => {}
    case Some(c) => c.baseAvatar
  }

  /** The mask with the current option's flags cleared: every other bit is kept. */
  function Unset(mask: Mask, current: Option<AvatarCustom>): (r: Mask)
    ensures r <= mask && r !! Flags(current)
    ensures forall k :: k in mask && k !in Flags(current) ==> k in r
  {
    mask - Flags(current)
  }

  /** The mask with the new option's flags added, only when they share no bit with it. */
  function AddIfDisjoint(mask: Mask, next: Option<AvatarCustom>): (r: Mask)
    ensures mask <= r <= mask + Flags(next)
    ensures mask !! Flags(next) ==> Flags(next) <= r
    ensures !(mask !! Flags(next)) ==> r == mask
  {
    if mask !! Flags(next) then mask + Flags(next) else mask
  }

  /** The body parts hidden by the option selected in one slot. */
  ghost function SlotFlags(reg: Registry, sel: seq<int>, slot: Slot): Mask
    requires InRange(reg, sel)
  {
    Flags(OptionAt(reg.Options(slot), sel[slot.Index()]))
  }

  /** The union of the body parts hidden by every selected option. */
  ghost function Occluded(reg: Registry, sel: seq<int>): Mask
    requires InRange(reg, sel)
  {
    set slot, p | slot in AllSlots && p in SlotFlags(reg, sel, slot) :: p
  }

  lemma SlotIndexInjective(a: Slot, b: Slot)
    ensures a.Index() == b.Index() ==> a == b
  {
  }

  /** Moving one slot to a valid index keeps every index in range. */
  lemma UpdateInRange(reg: Registry, sel: seq<int>, slot: Slot, next: int)
    requires InRange(reg, sel) && -1 <= next < |reg.Options(slot)|
    ensures InRange(reg, sel[slot.Index() := next])
  {
    var sel' := sel[slot.Index() := next];
    forall other: Slot
      ensures -1 <= sel'[other.Index()] < |reg.Options(other)|
    {
      SlotIndexInjective(other, slot);
    }
  }

  /** A part hidden by a slot other than `slot` stays hidden when only `slot` changes. */
  lemma {:induction false} OtherSlotsCarryOver(reg: Registry, sel: seq<int>, slot: Slot, next: int, p: nat)
    requires InRange(reg, sel) && -1 <= next < |reg.Options(slot)|
    requires p in Occluded(reg, sel) && p !in SlotFlags(reg, sel, slot)
    ensures InRange(reg, sel[slot.Index() := next])
    ensures p in Occluded(reg, sel[slot.Index() := next])
  {
    var sel' := sel[slot.Index() := next];
    UpdateInRange(reg, sel, slot, next);
    var owner :| owner in AllSlots && p in SlotFlags(reg, sel, owner);
    SlotIndexInjective(owner, slot);
    assert SlotFlags(reg, sel', owner) == SlotFlags(reg, sel, owner);
  }

  /**
   * Unsetting a slot's option leaves in the mask only parts that the other
   * slots' options hide.
   */
  lemma {:induction false} UnsetKeepsMaskOccluded(reg: Registry, sel: seq<int>, slot: Slot, mask: Mask)
    requires InRange(reg, sel) && mask <= Occluded(reg, sel)
    ensures InRange(reg, sel[slot.Index() := DefaultIndex])
    ensures Unset(mask, OptionAt(reg.Options(slot), sel[slot.Index()])) <= Occluded(reg, sel[slot.Index() := DefaultIndex])
  {
    UpdateInRange(reg, sel, slot, DefaultIndex);
    forall p | p in Unset(mask, OptionAt(reg.Options(slot), sel[slot.Index()]))
      ensures p in Occluded(reg, sel[slot.Index() := DefaultIndex])
    {
      OtherSlotsCarryOver(reg, sel, slot, DefaultIndex, p);
    }
  }

  /**
   * Adding the new option's parts to a mask of parts the other slots hide
   * gives a mask of parts the new selection hides.
   */
  lemma {:induction false} AddKeepsMaskOccluded(reg: Registry, sel: seq<int>, slot: Slot, next: int, mask: Mask)
    requires InRange(reg, sel) && -1 <= next < |reg.Options(slot)|
    requires InRange(reg, sel[slot.Index() := DefaultIndex])
    requires mask <= Occluded(reg, sel[slot.Index() := DefaultIndex])
    ensures InRange(reg, sel[slot.Index() := next])
    ensures AddIfDisjoint(mask, OptionAt(reg.Options(slot), next)) <= Occluded(reg, sel[slot.Index() := next])
  {
    var none := sel[slot.Index() := DefaultIndex];
    assert none[slot.Index() := next] == sel[slot.Index() := next];
    UpdateInRange(reg, none, slot, next);
    forall p | p in AddIfDisjoint(mask, OptionAt(reg.Options(slot), next))
      ensures p in Occluded(reg, sel[slot.Index() := next])
    {
      if p in Flags(OptionAt(reg.Options(slot), next)) {
        assert p in SlotFlags(reg, sel[slot.Index() := next], slot);
      } else {
        OtherSlotsCarryOver(reg, none, slot, next, p);
      }
    }
  }

  /** Base renderer `k` is shown exactly when body part `k` is not in the mask. */
  ghost predicate ShowsUnmasked(base: seq<bool>, mask: Mask)
  {
    forall k :: 0 <= k < |base| ==> (base[k] <==> !(k < |AllParts| && k in mask))
  }

  /** Shows or hides the renderer of an option; "none" changes nothing. */
  function SetShown(visible: seq<bool>, o: Option<AvatarCustom>, shown: bool): (r: seq<bool>)
    requires o.Some? ==> o.value.renderer < |visible|
    ensures |r| == |visible|
  {
    match o
    case None => visible
    case Some(c) => visible[c.renderer := shown]
  }

  // --------------------------------------------------------------- engine

  class AvatarCustomization {
    /** The option arrays of the six slots. */
    const registry: Registry
    /** Visibility of the base-body renderers. */
    const baseAvatar: array<bool>
    /** Visibility of the option renderers, by handle. */
    const renderers: array<bool>
    /** The current index of each slot. */
    var avatarIndex: array<int>
    /** The body parts to hide. */
    var bitmaskBaseAvatar: Mask

    ghost predicate Configured()
    {
      baseAvatar != renderers && registry.Valid(renderers.Length)
    }

    ghost predicate Valid()
      reads this, avatarIndex
    {
      Configured() &&
      avatarIndex.Length == |AllSlots| &&
      InRange(registry, avatarIndex[..]) &&
      Exclusive(avatarIndex[..]) &&
      bitmaskBaseAvatar <= Occluded(registry, avatarIndex[..])
    }

    /** Field initialisers followed by `Awake`, which runs `Init`. */
    constructor (registry: Registry, baseShown: seq<bool>, optionShown: seq<bool>)
      requires registry.Valid(|optionShown|)
      ensures Valid()
      ensures this.registry == registry
      ensures fresh(baseAvatar) && fresh(renderers) && fresh(avatarIndex)
      ensures baseAvatar[..] == baseShown && renderers[..] == optionShown
      ensures avatarIndex[..] == seq(|AllSlots|, _ => DefaultIndex) && bitmaskBaseAvatar == {}
    {
      this.registry := registry;
      baseAvatar := new bool[|baseShown|](i requires 0 <= i < |baseShown| => baseShown[i]);
      renderers := new bool[|optionShown|](i requires 0 <= i < |optionShown| => optionShown[i]);
      avatarIndex := new int[0];
      bitmaskBaseAvatar := {};
      new;
      Init();
    }

    /** Allocates the index array with every slot at "none"; the mask is left as it is. */
    method Init()
      requires Configured()
      modifies this`avatarIndex
      ensures fresh(avatarIndex)
      ensures avatarIndex[..] == seq(|AllSlots|, _ => DefaultIndex)
      ensures bitmaskBaseAvatar == {} ==> Valid()
    {
      avatarIndex := new int[|AllSlots|](_ => DefaultIndex);
      assert avatarIndex[..] == seq(|AllSlots|, _ => DefaultIndex);
      assert Occluded(registry, avatarIndex[..]) == {};
    }

    /**
     * The `ref index` overload: normalises `index` once and returns the
     * option it then names, `None` for "none".
     */
    method GetAvatarCustom(avatar: Slot, index: int) returns (newIndex: int, avatarCustom: Option<AvatarCustom>)
      ensures -1 <= newIndex < |registry.Options(avatar)|
      ensures newIndex == Wrap(index, |registry.Options(avatar)|)
      ensures avatarCustom.None? <==> newIndex == DefaultIndex
      ensures avatarCustom.Some? ==> avatarCustom.value == registry.Options(avatar)[newIndex]
    {
      var options := registry.Options(avatar);
      avatarCustom := None;
      newIndex := index;
      if newIndex < DefaultIndex {
        newIndex := |options| - 1;
      } else if newIndex >= |options| {
        newIndex := DefaultIndex;
      }
      if newIndex == DefaultIndex {
        return;
      }
      avatarCustom := Some(options[newIndex]);
    }

    /** Bit position of a single-bit mask: the number of halvings until it is at most 1. */
    static method BitmaskConvertToIndex(bitmask: int) returns (index: nat)
      ensures bitmask <= 1 ==> index == 0
      ensures bitmask >= 1 ==> Pow2(index) <= bitmask < 2 * Pow2(index)
    {
      var b := bitmask;
      index := 0;
      while b > 1
        invariant bitmask <= 1 ==> b == bitmask && index == 0
        invariant bitmask >= 1 ==> 1 <= b && Pow2(index) * b <= bitmask < Pow2(index) * (b + 1)
        decreases b
      {
        HalvingKeepsBracket(Pow2(index), b, bitmask);
        b := b / 2;
        index := index + 1;
      }
    }

    /** Shows every base renderer, then hides those whose body part is in the mask. */
    method SetBaseAvatar()
      modifies baseAvatar
      ensures ShowsUnmasked(baseAvatar[..], bitmaskBaseAvatar)
    {
      var i := 0;
      while i < baseAvatar.Length
        invariant 0 <= i <= baseAvatar.Length
        invariant forall j :: 0 <= j < i ==> baseAvatar[j]
      {
        baseAvatar[i] := true;
        i := i + 1;
      }
      if bitmaskBaseAvatar == {} {
        return;
      }
      var k := 0;
      while k < |AllParts|
        invariant 0 <= k <= |AllParts|
        invariant forall j :: 0 <= j < baseAvatar.Length ==>
          (baseAvatar[j] <==> !(j < k && j in bitmaskBaseAvatar))
      {
        var part := AllParts[k];
        AllPartsBits(k);
        if part.Bit() in bitmaskBaseAvatar {
          var index := BitmaskConvertToIndex(part.Value());
          Pow2BitPosition(k, index);
          if 0 <= index < baseAvatar.Length {
            baseAvatar[index] := false;
          }
        }
        k := k + 1;
      }
    }

    /**
     * Moves a slot by `increment`, or to the drawn value when `random`.
     * The current option is unset before the exclusivity gate, so a rejected
     * change still clears its flags and hides its renderer.
     */
    method SetAvatarCustom(avatar: Slot, increment: int, random: bool, draw: int)
      returns (avatarCustom: Option<AvatarCustom>)
      requires Valid()
      requires IsInt32(increment)
      requires random ==> -1 <= draw < |registry.Options(avatar)|
      modifies this`bitmaskBaseAvatar, avatarIndex, renderers, baseAvatar
      ensures Valid()
      ensures Allows(old(avatarIndex[..]), avatar) ==>
        avatarIndex[..] == old(avatarIndex[..])[avatar.Index() :=
          NextIndex(old(avatarIndex[avatar.Index()]), |registry.Options(avatar)|, increment, random, draw)]
      ensures !Allows(old(avatarIndex[..]), avatar) ==> avatarIndex[..] == old(avatarIndex[..])
      ensures avatarCustom == OptionAt(registry.Options(avatar), avatarIndex[avatar.Index()])
      ensures bitmaskBaseAvatar ==
        var cleared := Unset(old(bitmaskBaseAvatar), OptionAt(registry.Options(avatar), old(avatarIndex[avatar.Index()])));
        if Allows(old(avatarIndex[..]), avatar) then AddIfDisjoint(cleared, avatarCustom) else cleared
      ensures renderers[..] ==
        var hidden := SetShown(old(renderers[..]), OptionAt(registry.Options(avatar), old(avatarIndex[avatar.Index()])), false);
        if Allows(old(avatarIndex[..]), avatar) then SetShown(hidden, avatarCustom, true) else hidden
      ensures Allows(old(avatarIndex[..]), avatar) ==> ShowsUnmasked(baseAvatar[..], bitmaskBaseAvatar)
      ensures !Allows(old(avatarIndex[..]), avatar) ==> baseAvatar[..] == old(baseAvatar[..])
    {
      avatarCustom := UnsetCurrentAvatarCustom(avatar);
      if !Allows(avatarIndex[..], avatar) {
        return;
      }
      var requested := if random then draw else AddInt32(avatarIndex[avatar.Index()], increment);
      avatarCustom := SetNewAvatarCustom(avatar, requested);
    }

    /**
     * The first half of `SetAvatarCustom`: normalises the slot's index in
     * place, then clears the current option's flags and hides its renderer.
     */
    method UnsetCurrentAvatarCustom(avatar: Slot) returns (current: Option<AvatarCustom>)
      requires Valid()
      modifies this`bitmaskBaseAvatar, avatarIndex, renderers
      ensures Valid()
      ensures avatarIndex[..] == old(avatarIndex[..])
      ensures current == OptionAt(registry.Options(avatar), avatarIndex[avatar.Index()])
      ensures bitmaskBaseAvatar == Unset(old(bitmaskBaseAvatar), current)
      ensures renderers[..] == SetShown(old(renderers[..]), current, false)
      ensures InRange(registry, avatarIndex[..][avatar.Index() := DefaultIndex])
      ensures bitmaskBaseAvatar <= Occluded(registry, avatarIndex[..][avatar.Index() := DefaultIndex])
    {
      var s := avatar.Index();
      ghost var sel := avatarIndex[..];
      ghost var mask := bitmaskBaseAvatar;
      var index;
      index, current := GetAvatarCustom(avatar, avatarIndex[s]);
      avatarIndex[s] := index;
      assert avatarIndex[..] == sel;
      if current.Some? {
        bitmaskBaseAvatar := bitmaskBaseAvatar - current.value.baseAvatar;
        assert current.value in registry.Options(avatar);
        renderers[current.value.renderer] := false;
      }
      UnsetKeepsMaskOccluded(registry, sel, avatar, mask);
    }

    /**
     * The second half of `SetAvatarCustom`: stores the requested index,
     * normalised, shows the option it names, adds that option's flags when
     * they are disjoint from the mask, and re-syncs the base renderers.
     */
    method SetNewAvatarCustom(avatar: Slot, requested: int) returns (avatarCustom: Option<AvatarCustom>)
      requires Valid() && Allows(avatarIndex[..], avatar)
      requires InRange(registry, avatarIndex[..][avatar.Index() := DefaultIndex])
      requires bitmaskBaseAvatar <= Occluded(registry, avatarIndex[..][avatar.Index() := DefaultIndex])
      modifies this`bitmaskBaseAvatar, avatarIndex, renderers, baseAvatar
      ensures Valid()
      ensures avatarIndex[..] == old(avatarIndex[..])[avatar.Index() := Wrap(requested, |registry.Options(avatar)|)]
      ensures avatarCustom == OptionAt(registry.Options(avatar), avatarIndex[avatar.Index()])
      ensures bitmaskBaseAvatar == AddIfDisjoint(old(bitmaskBaseAvatar), avatarCustom)
      ensures renderers[..] == SetShown(old(renderers[..]), avatarCustom, true)
      ensures ShowsUnmasked(baseAvatar[..], bitmaskBaseAvatar)
    {
      var s := avatar.Index();
      ghost var sel := avatarIndex[..];
      ghost var mask := bitmaskBaseAvatar;
      var index;
      index, avatarCustom := GetAvatarCustom(avatar, requested);
      avatarIndex[s] := index;
      GateKeepsExclusive(sel, avatar, index);
      AddKeepsMaskOccluded(registry, sel, avatar, index, mask);
      if avatarCustom.Some? {
        if bitmaskBaseAvatar !! avatarCustom.value.baseAvatar {
          bitmaskBaseAvatar := bitmaskBaseAvatar + avatarCustom.value.baseAvatar;
        }
        assert avatarCustom.value in registry.Options(avatar);
        renderers[avatarCustom.value.renderer] := true;
      }
      ghost var shown := renderers[..];
      SetBaseAvatar();
      assert renderers[..] == shown;
    }

    /**
     * Applies a random change to every slot but Outfit, in slot order.
     * `draws[i]` is the value drawn for the slot at index `i`.
     */
    method SetRandomAllAvatarCustom(draws: seq<int>)
      requires Valid()
      requires |draws| == |AllSlots|
      requires forall slot: Slot :: slot != Outfit ==> -1 <= draws[slot.Index()] < |registry.Options(slot)|
      modifies this`bitmaskBaseAvatar, avatarIndex, renderers, baseAvatar
      ensures Valid()
      ensures avatarIndex[Outfit.Index()] == old(avatarIndex[Outfit.Index()])
      ensures avatarIndex[Accessories.Index()] == draws[Accessories.Index()]
      ensures avatarIndex[Slot.Head.Index()] == draws[Slot.Head.Index()]
      ensures forall slot: Slot :: slot in {Top, Bottom, Shoes} ==>
        avatarIndex[slot.Index()] ==
          if old(avatarIndex[Outfit.Index()]) == DefaultIndex then draws[slot.Index()]
          else old(avatarIndex[slot.Index()])
      ensures old(avatarIndex[Outfit.Index()]) == DefaultIndex ==> ShowsUnmasked(baseAvatar[..], bitmaskBaseAvatar)
    {
      ghost var outfit := avatarIndex[Outfit.Index()];
      ghost var before := avatarIndex[..];
      var i := 0;
      while i < |AllSlots|
        invariant 0 <= i <= |AllSlots|
        invariant Valid()
        invariant avatarIndex[Outfit.Index()] == outfit
        invariant forall j :: 0 <= j < i && j != Outfit.Index() ==>
          avatarIndex[j] == if 3 <= j && outfit != DefaultIndex then before[j] else draws[j]
        invariant forall j :: i <= j < |AllSlots| ==> avatarIndex[j] == before[j]
        invariant i == |AllSlots| && outfit == DefaultIndex ==> ShowsUnmasked(baseAvatar[..], bitmaskBaseAvatar)
      {
        var avatar := AllSlots[i];
        AllSlotsIndex(i);
        if avatar != Outfit {
          var _ := SetAvatarCustom(avatar, 0, true, draws[i]);
        }
        i := i + 1;
      }
    }
  }

  // ------------------------------------------------------- mask hazards

  /** Every index of `sel` is valid when each slot has at least one option. */
  lemma InRangeOfSingles(reg: Registry, sel: seq<int>)
    requires |sel| == |AllSlots|
    requires forall slot: Slot :: -1 <= sel[slot.Index()] <= 0
    requires forall slot: Slot :: sel[slot.Index()] == 0 ==> |reg.Options(slot)| == 1
    ensures InRange(reg, sel)
  {
  }

  /**
   * The mask is not the union of the selected options' parts: with a Top
   * hiding the upper torso already worn, an Outfit hiding the upper torso
   * and the hips is accepted, but its hips are not added to the mask.
   */
  lemma OverlappingOptionLeavesPartsVisible()
    ensures
      var reg := Registry([], [], [AvatarCustom(1, {5, 8})], [AvatarCustom(0, {5})], [], []);
      var sel := [-1, -1, -1, 0, -1, -1];
      var next := NextIndex(sel[Outfit.Index()], 1, 1, false, 0);
      var mask := AddIfDisjoint(Unset({5}, None), OptionAt(reg.Options(Outfit), next));
      Allows(sel, Outfit) && next == 0 &&
      InRange(reg, sel[Outfit.Index() := next]) &&
      8 in Occluded(reg, sel[Outfit.Index() := next]) && 8 !in mask
  {
    var reg := Registry([], [], [AvatarCustom(1, {5, 8})], [AvatarCustom(0, {5})], [], []);
    var sel := [-1, -1, -1, 0, -1, -1];
    var next := NextIndex(sel[Outfit.Index()], 1, 1, false, 0);
    assert next == 0;
    var sel' := sel[Outfit.Index() := next];
    assert sel' == [-1, -1, 0, 0, -1, -1];
    InRangeOfSingles(reg, sel');
    assert 8 in SlotFlags(reg, sel', Outfit);
    assert Outfit in AllSlots;
  }

  /**
   * Clearing a slot's parts can un-hide a part that another selected option
   * still hides: with a Top and an Outfit both hiding the upper torso, an
   * accepted step of the Outfit to "none" removes the upper torso from the
   * mask although the Top still hides it.
   */
  lemma SharedPartClearedByOtherSlot()
    ensures
      var reg := Registry([], [], [AvatarCustom(1, {5})], [AvatarCustom(0, {5})], [], []);
      var sel := [-1, -1, 0, 0, -1, -1];
      var next := NextIndex(sel[Outfit.Index()], 1, 1, false, 0);
      var mask := Unset({5}, OptionAt(reg.Options(Outfit), sel[Outfit.Index()]));
      Allows(sel, Outfit) && next == DefaultIndex &&
      InRange(reg, sel[Outfit.Index() := next]) &&
      5 in Occluded(reg, sel[Outfit.Index() := next]) && 5 !in mask
  {
    var reg := Registry([], [], [AvatarCustom(1, {5})], [AvatarCustom(0, {5})], [], []);
    var sel := [-1, -1, 0, 0, -1, -1];
    var next := NextIndex(sel[Outfit.Index()], 1, 1, false, 0);
    assert next == DefaultIndex;
    var sel' := sel[Outfit.Index() := next];
    assert sel' == [-1, -1, -1, 0, -1, -1];
    InRangeOfSingles(reg, sel');
    assert 5 in SlotFlags(reg, sel', Top);
    assert Top in AllSlots;
  }
}
