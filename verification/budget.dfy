/**
 * The percentage budget of LVM mode: at each start the driver tops up the namespace space that it owns in a region.
 */
module NamespaceBudget {
  import opened Alignment

  const OWN_NAME: string := "pmem-csi"

  datatype Namespace = Namespace(name: string, rawSize: nat)

  /** How creating a namespace ends; a late failure is one after the namespace exists. */
  datatype Fate = Works | FailsLate | FailsEarly

  /** What a region reports about its free space when the driver starts. */
  datatype Space = Space(available: nat, maxExtent: nat)

  function Own(ns: Namespace): nat
  {
    if ns.name == OWN_NAME then ns.rawSize else 0
  }

  /** The space in active namespaces that carry the driver's name. */
  function Owned(namespaces: seq<Namespace>): nat
  {
    if namespaces == [] then 0 else Owned(namespaces[..|namespaces| - 1]) + Own(namespaces[|namespaces| - 1])
  }

  lemma OwnedWithOneMore(namespaces: seq<Namespace>, ns: Namespace)
    ensures Owned(namespaces + [ns]) == Owned(namespaces) + Own(ns)
  {
  }

  lemma {:induction false} OwnedOfPrefix(namespaces: seq<Namespace>, n: nat)
    requires n <= |namespaces|
    ensures Owned(namespaces[..n]) <= Owned(namespaces)
  {
    if n == |namespaces| {
      assert namespaces[..n] == namespaces;
    } else {
      OwnedOfPrefix(namespaces[..|namespaces| - 1], n);
      assert namespaces[..|namespaces| - 1][..n] == namespaces[..n];
    }
  }

  /** The share of the region that the driver may own, in machine arithmetic. */
  function Budget(percentage: nat, size: nat): nat
  {
    Wrap(percentage * size) / 100
  }

  lemma HundredthsOf(n: nat)
    ensures 100 * (n / 100) <= n < 100 * (n / 100 + 1)
  {
  }

  /** The budget is the percentage of the size, rounded down, exactly when their product fits 64 bits. */
  lemma BudgetIsShare(percentage: nat, size: nat)
    ensures 100 * Budget(percentage, size) <= percentage * size
    ensures percentage * size < 100 * (Budget(percentage, size) + 1) <==> percentage * size < U64
  {
    HundredthsOf(Wrap(percentage * size));
  }

  /** All of it for one hundred percent. */
  lemma WholeBudget(size: nat)
    requires 100 * size < U64
    ensures Budget(100, size) == size
  {
    BudgetIsShare(100, size);
  }

  function Min(a: nat, b: nat): nat
  {
    if b < a then b else a
  }

  /** What is left of the budget: never negative. */
  function Left(budget: nat, namespaces: seq<Namespace>): nat
  {
    if Owned(namespaces) >= budget then 0 else budget - Owned(namespaces)
  }

  function Request(budget: nat, namespaces: seq<Namespace>, space: Space): nat
  {
    Min(Min(Left(budget, namespaces), space.available), space.maxExtent)
  }

  /** The request is the largest number within all three limits. */
  lemma RequestIsLargest(budget: nat, namespaces: seq<Namespace>, space: Space, n: nat)
    ensures n <= Request(budget, namespaces, space) <==>
            && n <= space.available && n <= space.maxExtent
            && (n == 0 || n + Owned(namespaces) <= budget)
  {
  }

  /** Namespaces of others do not count: with or without them the request is the same. */
  lemma {:induction false} OthersDoNotCount(budget: nat, namespaces: seq<Namespace>, other: Namespace,
        more: seq<Namespace>, space: Space)
    requires other.name != "pmem-csi"
    ensures Owned(namespaces + [other] + more) == Owned(namespaces + more)
    ensures Request(budget, namespaces + [other] + more, space) == Request(budget, namespaces + more, space)
  {
    if more == [] {
      assert namespaces + [other] + more == namespaces + [other] && namespaces + more == namespaces;
      OwnedWithOneMore(namespaces, other);
    } else {
      var init := more[..|more| - 1];
      var last := more[|more| - 1];
      OthersDoNotCount(budget, namespaces, other, init, space);
      assert namespaces + [other] + more == namespaces + [other] + init + [last];
      assert namespaces + more == namespaces + init + [last];
      OwnedWithOneMore(namespaces + [other] + init, last);
      OwnedWithOneMore(namespaces + init, last);
    }
  }

  /** CreateNamespace rounds the request up, in machine arithmetic, and refuses what exceeds the largest extent. */
  predicate Creates(request: nat, align: nat, space: Space)
    requires align > 0
  {
    request > 0 && RoundUp(request, align) <= space.maxExtent
  }

  /** The namespaces after one start; an early failure is one before the namespace exists. */
  function Started(budget: nat, align: nat, namespaces: seq<Namespace>, space: Space, fate: Fate): seq<Namespace>
    requires align > 0
  {
    var request := Request(budget, namespaces, space);
    if Creates(request, align, space) && !fate.FailsEarly?
    then namespaces + [Namespace(OWN_NAME, RoundUp(request, align))]
    else namespaces
  }

  /** The loop of setupNS stops at the first namespace that exhausts the budget. */
  method Subtract(budget: nat, namespaces: seq<Namespace>) returns (canUse: nat)
    ensures canUse == Left(budget, namespaces)
  {
    canUse := budget;
    for i := 0 to |namespaces|
      invariant canUse == Left(budget, namespaces[..i])
      invariant Owned(namespaces[..i]) <= budget
    {
      assert namespaces[..i + 1] == namespaces[..i] + [namespaces[i]];
      OwnedWithOneMore(namespaces[..i], namespaces[i]);
      if namespaces[i].name == OWN_NAME {
        var used := namespaces[i].rawSize;
        if used >= canUse {
          OwnedOfPrefix(namespaces, i + 1);
          return 0;
        }
        canUse := canUse - used;
      }
    }
    assert namespaces[..|namespaces|] == namespaces;
  }

  /** setupNS for one region. */
  method SetupNS(percentage: nat, size: nat, align: nat, namespaces: seq<Namespace>, space: Space, fate: Fate)
    returns (after: seq<Namespace>, ok: bool)
    requires align > 0
    ensures after == Started(Budget(percentage, size), align, namespaces, space, fate)
    ensures ok <==> Request(Budget(percentage, size), namespaces, space) == 0
                    || (Creates(Request(Budget(percentage, size), namespaces, space), align, space) && fate.Works?)
  {
    var canUse := Subtract(Budget(percentage, size), namespaces);
    if space.available < canUse { canUse := space.available; }
    if space.maxExtent < canUse { canUse := space.maxExtent; }
    if canUse == 0 { return namespaces, true; }
    var rounded := RoundUp(canUse, align);
    if rounded > space.maxExtent || fate.FailsEarly? { return namespaces, false; }
    return namespaces + [Namespace(OWN_NAME, rounded)], fate.Works?;
  }

  /**
   * A driver start, or anything else that happens in the region: other namespaces come and go and the driver's
   * own may disappear, but nobody else creates namespaces under its name.
   */
  datatype Event = Start(space: Space, fate: Fate) | Elsewhere(namespaces: seq<Namespace>)

  function Happen(budget: nat, align: nat, namespaces: seq<Namespace>, e: Event): seq<Namespace>
    requires align > 0
  {
    match e
    case Start(space, fate) => Started(budget, align, namespaces, space, fate)
    case Elsewhere(others) => if Owned(others) <= Owned(namespaces) then others else namespaces
  }

  function History(budget: nat, align: nat, namespaces: seq<Namespace>, events: seq<Event>): seq<Namespace>
    requires align > 0
  {
    if events == [] then namespaces
    else Happen(budget, align, History(budget, align, namespaces, events[..|events| - 1]), events[|events| - 1])
  }

  function Max(a: nat, b: nat): nat
  {
    if a < b then b else a
  }

  lemma StartOwns(budget: nat, align: nat, namespaces: seq<Namespace>, space: Space, fate: Fate)
    requires align > 0
    ensures var after := Started(budget, align, namespaces, space, fate);
            var request := Request(budget, namespaces, space);
            Owned(after) == Owned(namespaces)
              + if Creates(request, align, space) && !fate.FailsEarly? then RoundUp(request, align) else 0
  {
  }

  /**
   * What a start adds, if anything, is one namespace of its own: the least multiple of the unit that is no smaller
   * than all it may ask for, within the largest extent.
   */
  lemma StartAddsLeast(budget: nat, align: nat, namespaces: seq<Namespace>, space: Space, fate: Fate, n: nat)
    requires 0 < align < U64 && n > 0 && Up(Request(budget, namespaces, space), align) < U64
    requires n <= space.available && n <= space.maxExtent && n + Owned(namespaces) <= budget
    ensures var after := Started(budget, align, namespaces, space, fate);
            after != namespaces ==>
              && |after| == |namespaces| + 1 && after[..|namespaces|] == namespaces
              && after[|namespaces|].name == "pmem-csi"
              && n <= after[|namespaces|].rawSize <= space.maxExtent && Divides(align, after[|namespaces|].rawSize)
              && after[|namespaces|].rawSize < space.available + align
              && after[|namespaces|].rawSize + Owned(namespaces) < budget + align
  {
    RequestIsLargest(budget, namespaces, space, n);
    UpCovers(Request(budget, namespaces, space), align);
  }

  /** However often the driver starts, it never owns more than it had or than its budget plus alignment. */
  lemma {:induction false} OwnedStaysInBudget(budget: nat, align: nat, namespaces: seq<Namespace>, events: seq<Event>)
    requires align > 0
    ensures Owned(History(budget, align, namespaces, events)) <= Max(Owned(namespaces), budget + align - 1)
  {
    if events != [] {
      var before := History(budget, align, namespaces, events[..|events| - 1]);
      OwnedStaysInBudget(budget, align, namespaces, events[..|events| - 1]);
      var e := events[|events| - 1];
      if e.Start? {
        StartOwns(budget, align, before, e.space, e.fate);
        UpCovers(Request(budget, before, e.space), align);
      }
    }
  }

  /** Over any history the driver owns no more than it had, or than its share of the region and less than a unit. */
  lemma OwnedStaysInShare(percentage: nat, size: nat, align: nat, namespaces: seq<Namespace>, events: seq<Event>)
    requires align > 0
    ensures var owned := Owned(History(Budget(percentage, size), align, namespaces, events));
            owned <= Owned(namespaces) || 100 * owned < percentage * size + 100 * align
  {
    OwnedStaysInBudget(Budget(percentage, size), align, namespaces, events);
    BudgetIsShare(percentage, size);
  }

  /**
   * On a region where the driver owns nothing yet and which has an aligned extent for it, a start makes it own its
   * share: at least the percentage of the size, rounded down, and less than one unit more.
   */
  lemma FirstStartTakesShare(percentage: nat, size: nat, align: nat, namespaces: seq<Namespace>, space: Space,
        room: nat)
    requires align > 0 && Owned(namespaces) == 0 && percentage * size < U64
    requires room <= space.available && room <= space.maxExtent && room < U64
    requires Divides(align, room) && percentage * size <= 100 * room
    ensures var owned := Owned(Started(Budget(percentage, size), align, namespaces, space, Works));
            percentage * size < 100 * (owned + 1) && 100 * owned < percentage * size + 100 * align
  {
    var budget := Budget(percentage, size);
    BudgetIsShare(percentage, size);
    StartOwns(budget, align, namespaces, space, Works);
    if budget > 0 {
      UpIsLeast(budget, align, room);
      UpCovers(budget, align);
    }
  }

  /**
   * A start that is limited by the budget alone uses it up, so the next one creates nothing whatever space it finds.
   * This is so exactly when rounding up did not wrap around.
   */
  lemma BudgetLimitedStartIsFinal(budget: nat, align: nat, namespaces: seq<Namespace>, space: Space, next: Space,
        fate: Fate)
    requires 0 < align < U64
    requires Request(budget, namespaces, space) == Left(budget, namespaces) > 0
    requires Creates(Left(budget, namespaces), align, space)
    ensures var after := Started(budget, align, namespaces, space, Works);
            && (Left(budget, after) == 0 <==> Up(Left(budget, namespaces), align) < U64)
            && (Up(Left(budget, namespaces), align) < U64 ==> Started(budget, align, after, next, fate) == after)
  {
    StartOwns(budget, align, namespaces, space, Works);
    UpCovers(Left(budget, namespaces), align);
  }

  /** A percentage of zero never creates anything, in any history. */
  lemma {:induction false} NothingForZeroPercent(size: nat, align: nat, namespaces: seq<Namespace>, events: seq<Event>)
    requires align > 0 && forall i :: 0 <= i < |events| ==> events[i].Start?
    ensures History(Budget(0, size), align, namespaces, events) == namespaces
  {
    if events != [] {
      NothingForZeroPercent(size, align, namespaces, events[..|events| - 1]);
    }
  }

  /**
   * A start limited by the largest extent is refused exactly when that extent is not aligned and its rounding does
   * not wrap around, so fragmentation can keep the driver from starting although it has budget left.
   */
  lemma ExtentLimitedStart(budget: nat, align: nat, namespaces: seq<Namespace>, space: Space)
    requires 0 < align < U64 && Request(budget, namespaces, space) == space.maxExtent > 0
    ensures Creates(space.maxExtent, align, space)
            <==> Divides(align, space.maxExtent) || Up(space.maxExtent, align) >= U64
  {
    UpCovers(space.maxExtent, align);
    if Divides(align, space.maxExtent) { UpIsLeast(space.maxExtent, align, space.maxExtent); }
  }
}

