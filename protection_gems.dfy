/**
 * The plugin operations around the counter codec: applying a gem to an item,
 * spending a charge when the owner dies, splitting a death's drops into the
 * items that fall and the items kept for respawn, shrinking the gem stack,
 * and the argument checks of `/protectiongem give <player> <amount>`.
 * Items are values: an item's metadata and lore are copies that the plugin
 * edits and stores back.
 */
module ProtectionGems {
  import opened Wrappers
  import opened KotlinText
  import opened LoreCodec

  /** Item metadata: the display name and the lore, which may be absent. */
  datatype Meta = Meta(displayName: string, lore: Option<seq<string>>)

  /** An item stack: its material, its stack size and its metadata, which may be absent. */
  datatype Item = Item(material: string, amount: Int32, meta: Option<Meta>)

  /** The identity under which a player's kept items are stored (the player's UUID). */
  type PlayerId = string

  // ---------------------------------------------------------------------------
  // Reading an item
  // ---------------------------------------------------------------------------

  /** `hasProtection`: the item has metadata, a lore, and a line of it starts with the prefix. */
  predicate HasProtection(c: Config, item: Item)
    ensures HasProtection(c, item) ==> HasLore(item) && ItemCount(c, item) == GetProtectionCount(c, item.meta.value.lore.value)
  {
    match item.meta
    case None => false
    case Some(meta) =>
      match meta.lore
      case None => false
      case Some(lore) => HasCounterLine(c, lore)
  }

  /** The count `getProtectionCount` reads from an item's lore (a missing lore reads as empty). */
  function ItemCount(c: Config, item: Item): Int32 {
    match item.meta
    case None => 0
    case Some(meta) => GetProtectionCount(c, meta.lore.GetOr([]))
  }

  /** The item with its metadata's lore set to `lore`. */
  function WithLore(item: Item, lore: seq<string>): Item
    requires item.meta.Some?
  {
    item.(meta := Some(item.meta.value.(lore := Some(lore))))
  }

  /** `hasProtection` is the presence of a counter line, whatever its value. */
  lemma HasProtectionIsPresence(c: Config, item: Item)
    ensures HasProtection(c, item) <==>
      item.meta.Some? && item.meta.value.lore.Some? &&
      FirstMatch(item.meta.value.lore.value, ReadPrefix(c)).Some?
  {
  }

  // ---------------------------------------------------------------------------
  // Applying a gem: applyProtectionToItem
  // ---------------------------------------------------------------------------

  /** The item after a gem is applied: `added_amount` more charges; unchanged without metadata. */
  function AddCharge(c: Config, item: Item): (r: Item)
    ensures r.material == item.material && r.amount == item.amount
    ensures r.meta.Some? <==> item.meta.Some?
    ensures item.meta.Some? ==> r.meta.value.displayName == item.meta.value.displayName && HasLore(r)
  {
    match item.meta
    case None => item
    case Some(meta) =>
      var lore := meta.lore.GetOr([]);
      WithLore(item, WriteCounter(c, lore, Add32(GetProtectionCount(c, lore), c.addedAmount)))
  }

  /** `applyProtectionToItem`. */
  method ApplyProtectionToItem(c: Config, item: Item) returns (applied: Item)
    ensures applied == AddCharge(c, item)
  {
    if item.meta.None? {
      return item;
    }
    var meta := item.meta.value;
    var lore := meta.lore.GetOr([]);
    var protectionCount := GetProtectionCount(c, lore);
    lore := UpdateProtectionLore(c, lore, protectionCount);
    applied := item.(meta := Some(meta.(lore := Some(lore))));
  }

  /**
   * Applying a gem to an item with metadata marks it protected and raises its
   * count by exactly `added_amount` (Kotlin `Int` addition); material, stack
   * size and display name stay as they were.
   */
  lemma AddChargeRoundTrip(c: Config, item: Item)
    requires SimpleTemplate(c) && item.meta.Some?
    ensures HasProtection(c, AddCharge(c, item))
    ensures ItemCount(c, AddCharge(c, item)) == Add32(ItemCount(c, item), c.addedAmount)
    ensures AddCharge(c, item).material == item.material && AddCharge(c, item).amount == item.amount
    ensures AddCharge(c, item).meta.value.displayName == item.meta.value.displayName
  {
    var lore := item.meta.value.lore.GetOr([]);
    WriteThenRead(c, lore, Add32(GetProtectionCount(c, lore), c.addedAmount));
  }

  /** A first gem on an item without a counter line yields exactly `added_amount` charges. */
  lemma FirstGem(c: Config, item: Item)
    requires SimpleTemplate(c) && item.meta.Some?
    requires item.meta.value.lore.None? || !HasCounterLine(c, item.meta.value.lore.value)
    ensures ItemCount(c, AddCharge(c, item)) == c.addedAmount
  {
    var lore := item.meta.value.lore.GetOr([]);
    AddChargeRoundTrip(c, item);
  }

  // ---------------------------------------------------------------------------
  // Spending a charge: updateItemProtection
  // ---------------------------------------------------------------------------

  /** What `updateItemProtection` asserts (`!!`) of its item: metadata with a lore. */
  predicate HasLore(item: Item) {
    item.meta.Some? && item.meta.value.lore.Some?
  }

  /**
   * The item after surviving one death: with more than one charge the counter
   * drops by one; otherwise every counter line is removed.
   */
  function SpendCharge(c: Config, item: Item): (r: Item)
    requires HasLore(item)
    ensures HasLore(r)
    ensures r.material == item.material && r.amount == item.amount
    ensures r.meta.value.displayName == item.meta.value.displayName
  {
    var lore := item.meta.value.lore.value;
    var count := GetProtectionCount(c, lore);
    WithLore(item, if count > 1 then WriteCounter(c, lore, count - 1) else WithoutCounter(lore, ReadPrefix(c)))
  }

  /**
   * `updateItemProtection`: it passes `count - 1 - added_amount` to
   * `updateProtectionLore`, which adds `added_amount` back, so the net value
   * written is `count - 1`.
   */
  method UpdateItemProtection(c: Config, item: Item) returns (spent: Item)
    requires HasLore(item)
    ensures spent == SpendCharge(c, item)
  {
    var meta := item.meta.value;
    var lore := meta.lore.value;
    var protectionCount := GetProtectionCount(c, lore);
    if protectionCount > 1 {
      var passed := Sub32(Sub32(protectionCount, 1), c.addedAmount);
      SubThenAdd(protectionCount - 1, c.addedAmount);
      lore := UpdateProtectionLore(c, lore, passed);
    } else {
      lore := RemoveCounterLines(lore, ReadPrefix(c));
    }
    spent := item.(meta := Some(meta.(lore := Some(lore))));
  }

  /** With more than one charge, a death costs exactly one and the item stays protected. */
  lemma SpendChargeDecrements(c: Config, item: Item)
    requires SimpleTemplate(c) && HasLore(item) && ItemCount(c, item) > 1
    ensures HasProtection(c, SpendCharge(c, item))
    ensures ItemCount(c, SpendCharge(c, item)) == ItemCount(c, item) - 1
  {
    var lore := item.meta.value.lore.value;
    WriteThenRead(c, lore, GetProtectionCount(c, lore) - 1);
  }

  /**
   * With one charge or fewer, the counter lines go: the item is no longer
   * protected and its remaining lore is the old non-counter lines, in order.
   */
  lemma SpendLastCharge(c: Config, item: Item)
    requires HasLore(item) && ItemCount(c, item) <= 1
    ensures !HasProtection(c, SpendCharge(c, item))
    ensures SpendCharge(c, item).meta.value.lore == Some(WithoutCounter(item.meta.value.lore.value, ReadPrefix(c)))
  {
    RemovedLeavesNoCounter(c, item.meta.value.lore.value);
  }

  /** Spending a charge never touches the lore lines that are not counter lines. */
  lemma SpendKeepsOtherLines(c: Config, item: Item)
    requires SimpleTemplate(c) && HasLore(item)
    ensures HasLore(SpendCharge(c, item))
    ensures WithoutCounter(SpendCharge(c, item).meta.value.lore.value, ReadPrefix(c))
      == WithoutCounter(item.meta.value.lore.value, ReadPrefix(c))
  {
    var lore := item.meta.value.lore.value;
    var count := GetProtectionCount(c, lore);
    var p := ReadPrefix(c);
    if count > 1 {
      WriteKeepsOtherLines(c, lore, count - 1);
    } else {
      var r := WithoutCounter(lore, p);
      assert forall j :: 0 <= j < |r| ==> !(p <= r[j]) by {
        forall j | 0 <= j < |r| ensures !(p <= r[j]) { assert r[j] in r; }
      }
    }
  }

  /** The item has at most one counter line (or no lore at all). */
  predicate AtMostOneCounterLine(c: Config, item: Item) {
    HasLore(item) ==> AtMostOneCounter(item.meta.value.lore.value, ReadPrefix(c))
  }

  /** Applying a gem never gives an item a second counter line. */
  lemma AddChargeKeepsAtMostOne(c: Config, item: Item)
    requires SimpleTemplate(c) && AtMostOneCounterLine(c, item)
    ensures AtMostOneCounterLine(c, AddCharge(c, item))
  {
    if item.meta.Some? {
      var lore := item.meta.value.lore.GetOr([]);
      WriteKeepsAtMostOneCounter(c, lore, Add32(GetProtectionCount(c, lore), c.addedAmount));
    }
  }

  /** Spending a charge never gives an item a second counter line. */
  lemma SpendChargeKeepsAtMostOne(c: Config, item: Item)
    requires SimpleTemplate(c) && HasLore(item) && AtMostOneCounterLine(c, item)
    ensures AtMostOneCounterLine(c, SpendCharge(c, item))
  {
    var lore := item.meta.value.lore.value;
    var count := GetProtectionCount(c, lore);
    if count > 1 {
      WriteKeepsAtMostOneCounter(c, lore, count - 1);
    } else {
      var r := WithoutCounter(lore, ReadPrefix(c));
      forall j | 0 <= j < |r|
        ensures !(ReadPrefix(c) <= r[j])
      {
        assert r[j] in r;
      }
    }
  }

  // ---------------------------------------------------------------------------
  // The death handler: onPlayerDeath
  // ---------------------------------------------------------------------------

  /** The items of `items` that carry protection, in their original order. */
  function ProtectedItems(c: Config, items: seq<Item>): (r: seq<Item>)
    ensures forall x :: x in r <==> x in items && HasProtection(c, x)
  {
    if items == [] then []
    else
      var init, last := items[..|items| - 1], items[|items| - 1];
      assert items == init + [last];
      if HasProtection(c, last) then ProtectedItems(c, init) + [last] else ProtectedItems(c, init)
  }

  /** The items of `items` that carry no protection, in their original order. */
  function UnprotectedItems(c: Config, items: seq<Item>): (r: seq<Item>)
    ensures forall x :: x in r <==> x in items && !HasProtection(c, x)
  {
    if items == [] then []
    else
      var init, last := items[..|items| - 1], items[|items| - 1];
      assert items == init + [last];
      if HasProtection(c, last) then UnprotectedItems(c, init) else UnprotectedItems(c, init) + [last]
  }

  /** Every item of `items` has metadata with a lore. */
  predicate AllHaveLore(items: seq<Item>) {
    forall k :: 0 <= k < |items| ==> HasLore(items[k])
  }

  /** Each item with one charge spent, in the same order: one result per item. */
  function SpendAll(c: Config, items: seq<Item>): (r: seq<Item>)
    requires AllHaveLore(items)
    ensures |r| == |items|
  {
    if items == [] then []
    else SpendAll(c, items[..|items| - 1]) + [SpendCharge(c, items[|items| - 1])]
  }

  /**
   * The kept list pairs off with the protected items: the k-th is the k-th
   * spent, so it keeps that item's material, stack size and display name.
   */
  lemma {:induction false} SpendAllAt(c: Config, items: seq<Item>)
    requires AllHaveLore(items)
    ensures forall k :: 0 <= k < |items| ==> SpendAll(c, items)[k] == SpendCharge(c, items[k])
    ensures forall k :: 0 <= k < |items| ==> (HasLore(SpendAll(c, items)[k]) &&
      SpendAll(c, items)[k].material == items[k].material &&
      SpendAll(c, items)[k].amount == items[k].amount &&
      SpendAll(c, items)[k].meta.value.displayName == items[k].meta.value.displayName)
  {
    if items != [] {
      var n := |items|;
      var init := items[..n - 1];
      SpendAllAt(c, init);
      var r := SpendAll(c, items);
      assert r == SpendAll(c, init) + [SpendCharge(c, items[n - 1])];
      forall k | 0 <= k < n
        ensures r[k] == SpendCharge(c, items[k])
      {
        if k < n - 1 {
          assert items[k] == init[k];
        }
      }
    }
  }

  /** Protected items all have metadata with a lore. */
  lemma ProtectedHaveLore(c: Config, items: seq<Item>)
    ensures AllHaveLore(ProtectedItems(c, items))
  {
    var r := ProtectedItems(c, items);
    forall k | 0 <= k < |r|
      ensures HasLore(r[k])
    {
      assert r[k] in r;
    }
  }

  /** Spends a charge of each item in turn (the `map` over the protected items). */
  method SpendEach(c: Config, items: seq<Item>) returns (kept: seq<Item>)
    requires AllHaveLore(items)
    ensures kept == SpendAll(c, items)
  {
    kept := [];
    var i := 0;
    while i < |items|
      invariant 0 <= i <= |items|
      invariant kept == SpendAll(c, items[..i])
    {
      var prefix := items[..i + 1];
      assert prefix[..i] == items[..i] && prefix[i] == items[i];
      assert SpendAll(c, prefix) == SpendAll(c, items[..i]) + [SpendCharge(c, items[i])];
      var spent := UpdateItemProtection(c, items[i]);
      kept := kept + [spent];
      i := i + 1;
    }
    assert items[..i] == items;
  }

  /** The items of `items` that are not equal to any of `elements`, in their original order. */
  function WithoutElements(items: seq<Item>, elements: seq<Item>): (r: seq<Item>)
    ensures forall x :: x in r <==> x in items && x !in elements
  {
    if items == [] then []
    else
      var init, last := items[..|items| - 1], items[|items| - 1];
      assert items == init + [last];
      if last in elements then WithoutElements(init, elements) else WithoutElements(init, elements) + [last]
  }

  /** `items.removeAll(elements)`: drops every item equal to one of `elements`. */
  method RemoveAll(items: seq<Item>, elements: seq<Item>) returns (remaining: seq<Item>)
    ensures remaining == WithoutElements(items, elements)
  {
    remaining := [];
    var i := 0;
    while i < |items|
      invariant 0 <= i <= |items|
      invariant remaining == WithoutElements(items[..i], elements)
    {
      assert items[..i + 1][..i] == items[..i];
      if items[i] !in elements {
        remaining := remaining + [items[i]];
      }
      i := i + 1;
    }
    assert items[..i] == items;
  }

  /**
   * Removing the protected drops by equality leaves exactly the unprotected
   * ones: protection depends on the item's value alone, so no unprotected drop
   * equals a protected one.
   */
  lemma {:induction false} RemoveProtectedLeavesUnprotected(c: Config, drops: seq<Item>, prefix: nat)
    requires prefix <= |drops|
    ensures WithoutElements(drops[..prefix], ProtectedItems(c, drops)) == UnprotectedItems(c, drops[..prefix])
  {
    if prefix > 0 {
      var init := drops[..prefix][..prefix - 1];
      assert init == drops[..prefix - 1];
      RemoveProtectedLeavesUnprotected(c, drops, prefix - 1);
      var last := drops[prefix - 1];
      assert drops[..prefix][prefix - 1] == last && last in drops;
    }
  }

  /** Collects the drops that have protection (the `forEach` / `add` loop). */
  method CollectProtected(c: Config, drops: seq<Item>) returns (protectedItems: seq<Item>)
    ensures protectedItems == ProtectedItems(c, drops)
  {
    protectedItems := [];
    var i := 0;
    while i < |drops|
      invariant 0 <= i <= |drops|
      invariant protectedItems == ProtectedItems(c, drops[..i])
    {
      assert drops[..i + 1][..i] == drops[..i];
      if HasProtection(c, drops[i]) {
        protectedItems := protectedItems + [drops[i]];
      }
      i := i + 1;
    }
    assert drops[..i] == drops;
  }

  /** The split loses and invents nothing: every drop goes to exactly one side. */
  lemma {:induction false} PartitionIsComplete(c: Config, items: seq<Item>)
    ensures multiset(ProtectedItems(c, items)) + multiset(UnprotectedItems(c, items)) == multiset(items)
  {
    if items != [] {
      var init, last := items[..|items| - 1], items[|items| - 1];
      assert items == init + [last];
      PartitionIsComplete(c, init);
    }
  }

  /**
   * `onPlayerDeath`: collects the protected drops, removes them from the drop
   * list (`removeAll`, by item equality), and stores under the player's id the
   * protected items with one charge spent each.
   */
  method OnPlayerDeath(c: Config, store: map<PlayerId, seq<Item>>, player: PlayerId, drops: seq<Item>)
    returns (remaining: seq<Item>, saved: map<PlayerId, seq<Item>>)
    ensures remaining == UnprotectedItems(c, drops)
    ensures AllHaveLore(ProtectedItems(c, drops))
    ensures saved == store[player := SpendAll(c, ProtectedItems(c, drops))]
  {
    var protectedItems := CollectProtected(c, drops);
    remaining := RemoveAll(drops, protectedItems);
    RemoveProtectedLeavesUnprotected(c, drops, |drops|);
    assert drops[..|drops|] == drops;
    ProtectedHaveLore(c, drops);
    var kept := SpendEach(c, protectedItems);
    saved := store[player := kept];
  }
  // ---------------------------------------------------------------------------
  // The gem stack: decreaseGemAmount
  // ---------------------------------------------------------------------------

  /** `decreaseGemAmount`: one gem fewer in the stack (Kotlin `Int` subtraction); no stack, no change. */
  method DecreaseGemAmount(gem: Option<Item>) returns (after: Option<Item>)
    ensures after.None? <==> gem.None?
    ensures gem.Some? ==> after.value.material == gem.value.material && after.value.meta == gem.value.meta
    ensures gem.Some? && gem.value.amount > MinInt32 ==> after.value.amount == gem.value.amount - 1
    ensures gem.Some? && gem.value.amount == MinInt32 ==> after.value.amount == MaxInt32
  {
    if gem.None? {
      return None;
    }
    var stack := gem.value;
    after := Some(stack.(amount := Sub32(stack.amount, 1)));
  }

  // ---------------------------------------------------------------------------
  // The command: handleProtectionGemCommand
  // ---------------------------------------------------------------------------

  /** What the command replies: which message it sends, or the grant it makes. */
  datatype CommandReply =
    | Usage
    | PlayerNotFound(name: string)
    | InvalidAmount
    | GiveGems(player: PlayerId, amount: Int32)

  /**
   * The checks of `handleProtectionGemCommand`, in the source's order; the
   * server's player lookup is the parameter `findPlayer`.
   */
  function HandleProtectionGemCommand(args: seq<string>, findPlayer: string -> Option<PlayerId>): (r: CommandReply)
    ensures r.Usage? <==> |args| < 3 || args[0] != "give"
    ensures r.PlayerNotFound? <==> !r.Usage? && findPlayer(args[1]).None?
    ensures r.PlayerNotFound? ==> r.name == args[1]
    ensures r.InvalidAmount? <==>
      !r.Usage? && findPlayer(args[1]).Some? &&
      (ToIntOrNull(args[2]).None? || ToIntOrNull(args[2]).value <= 0)
    ensures r.GiveGems? ==>
      |args| >= 3 && args[0] == "give" && findPlayer(args[1]) == Some(r.player) &&
      r.amount > 0 && ToIntOrNull(args[2]) == Some(r.amount)
  {
    if |args| < 3 || args[0] != "give" then Usage
    else match findPlayer(args[1])
      case None => PlayerNotFound(args[1])
      case Some(player) =>
        match ToIntOrNull(args[2])
        case None => InvalidAmount
        case Some(amount) => if amount <= 0 then InvalidAmount else GiveGems(player, amount)
  }

  /** Every positive `Int`, written out in decimal, is granted to a player the server finds. */
  lemma GiveAnyPositiveAmount(name: string, findPlayer: string -> Option<PlayerId>, player: PlayerId, amount: Int32, extra: seq<string>)
    requires findPlayer(name) == Some(player) && amount > 0
    ensures HandleProtectionGemCommand(["give", name, IntToString(amount)] + extra, findPlayer) == GiveGems(player, amount)
  {
    IntToStringRoundTrip(amount);
  }
}
