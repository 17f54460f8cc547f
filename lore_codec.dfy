/**
 * The protection-counter codec: a "charges remaining" counter kept as one
 * line of an item's lore (its list of text lines). The counter line is the
 * first line that starts with the configured template with its `%amount%`
 * placeholder removed; its value is the text after the last ": " of that line.
 */
module LoreCodec {
  import opened Wrappers
  import opened KotlinText

  const Placeholder: string := "%amount%"
  const CountDelimiter: string := ": "

  /**
   * The configuration the codec reads: the `protection.lore` template as
   * written in the configuration file, the colour-code translation
   * (`ChatColor.translateAlternateColorCodes('&', ·)`, left abstract) and
   * `protection.added_amount`.
   */
  datatype Config = Config(template: string, normalise: string -> string, addedAmount: Int32)

  /** The prefix that reading, `hasProtection` and charge removal match lines against. */
  function ReadPrefix(c: Config): string {
    c.normalise(Replace(c.template, Placeholder, ""))
  }

  /** The colour-translated template, still holding its placeholder. */
  function Label(c: Config): string {
    c.normalise(c.template)
  }

  /** The prefix `updateProtectionLore` matches lines against: built from the already translated template. */
  function WritePrefix(c: Config): string {
    c.normalise(Replace(Label(c), Placeholder, ""))
  }

  /** The counter line `updateProtectionLore` writes for a value. */
  function Render(c: Config, amount: int): string {
    Replace(Label(c), Placeholder, IntToString(amount))
  }

  /**
   * A template of the shape the plugin ships with ("...: %amount%"): the
   * translated template is the read prefix followed by the placeholder, the
   * prefix holds no '%', ends in ": ", and translating it again changes nothing.
   */
  predicate SimpleTemplate(c: Config) {
    var p := ReadPrefix(c);
    && Label(c) == p + Placeholder
    && '%' !in p
    && |p| >= 2 && p[|p| - 2..] == CountDelimiter
    && c.normalise(p) == p
  }

  /** Under a simple template both prefixes agree and a rendered line is the prefix followed by the value. */
  lemma SimpleTemplateRender(c: Config, amount: int)
    requires SimpleTemplate(c)
    ensures WritePrefix(c) == ReadPrefix(c)
    ensures Render(c, amount) == ReadPrefix(c) + IntToString(amount)
  {
    var p := ReadPrefix(c);
    ReplaceTrailing(p, Placeholder, "");
    assert p + "" == p;
    ReplaceTrailing(p, Placeholder, IntToString(amount));
  }

  // ---------------------------------------------------------------------------
  // Finding the counter line
  // ---------------------------------------------------------------------------

  /** The index of the first line that starts with `prefix` (`find` / `indexOfFirst`). */
  function FirstMatch(lore: seq<string>, prefix: string): (r: Option<nat>)
    ensures r.None? <==> forall j :: 0 <= j < |lore| ==> !(prefix <= lore[j])
    ensures r.Some? ==> r.value < |lore| && prefix <= lore[r.value]
    ensures r.Some? ==> forall j :: 0 <= j < r.value ==> !(prefix <= lore[j])
  {
    if lore == [] then None
    else if prefix <= lore[0] then Some(0)
    else match FirstMatch(lore[1..], prefix)
      case None => None
      case Some(k) => Some(k + 1)
  }

  /** A matching line with no matching line before it is the one `FirstMatch` finds. */
  lemma FirstMatchAt(lore: seq<string>, prefix: string, i: nat)
    requires i < |lore| && prefix <= lore[i]
    requires forall j :: 0 <= j < i ==> !(prefix <= lore[j])
    ensures FirstMatch(lore, prefix) == Some(i)
  {
  }

  /** `lore.indexOfFirst { it.startsWith(prefix) }`: the first matching index, or -1. */
  method IndexOfFirst(lore: seq<string>, prefix: string) returns (index: int)
    ensures -1 <= index < |lore|
    ensures index == -1 <==> forall j :: 0 <= j < |lore| ==> !(prefix <= lore[j])
    ensures index >= 0 ==> prefix <= lore[index]
    ensures index >= 0 ==> forall j :: 0 <= j < index ==> !(prefix <= lore[j])
  {
    index := 0;
    while index < |lore|
      invariant 0 <= index <= |lore|
      invariant forall j :: 0 <= j < index ==> !(prefix <= lore[j])
    {
      if prefix <= lore[index] {
        return;
      }
      index := index + 1;
    }
    index := -1;
  }

  // ---------------------------------------------------------------------------
  // Reading: getProtectionCount and the presence test of hasProtection
  // ---------------------------------------------------------------------------

  /**
   * `getProtectionCount`: the integer after the last ": " of the first counter
   * line; 0 when there is no counter line or that text is not an `Int`.
   */
  function GetProtectionCount(c: Config, lore: seq<string>): (r: Int32)
    ensures r != 0 ==> HasCounterLine(c, lore)
  {
    match FirstMatch(lore, ReadPrefix(c))
    case None => 0
    case Some(i) => ToIntOrNull(SubstringAfterLast(lore[i], CountDelimiter)).GetOr(0)
  }

  /** The lore test of `hasProtection`: some line starts with the read prefix. */
  predicate HasCounterLine(c: Config, lore: seq<string>) {
    exists j :: 0 <= j < |lore| && ReadPrefix(c) <= lore[j]
  }

  /**
   * A count other than 0 is the value of the first counter line: the text
   * after its last ": " parses to that count.
   */
  lemma NonZeroCountHasLine(c: Config, lore: seq<string>)
    requires GetProtectionCount(c, lore) != 0
    ensures HasCounterLine(c, lore)
    ensures exists i :: (0 <= i < |lore| && FirstMatch(lore, ReadPrefix(c)) == Some(i) &&
      ToIntOrNull(SubstringAfterLast(lore[i], CountDelimiter)) == Some(GetProtectionCount(c, lore)))
  {
    var i := FirstMatch(lore, ReadPrefix(c)).value;
    assert ToIntOrNull(SubstringAfterLast(lore[i], CountDelimiter)) == Some(GetProtectionCount(c, lore));
  }

  /** Only the first counter line is read: what follows it never changes the count. */
  lemma {:induction false} CountReadsFirstLineOnly(c: Config, lore: seq<string>, other: seq<string>, i: nat)
    requires FirstMatch(lore, ReadPrefix(c)) == Some(i)
    requires |other| > i && other[..i + 1] == lore[..i + 1]
    ensures GetProtectionCount(c, other) == GetProtectionCount(c, lore)
  {
    var p := ReadPrefix(c);
    forall j | 0 <= j <= i
      ensures other[j] == lore[j]
    {
      assert other[..i + 1][j] == lore[..i + 1][j];
    }
    FirstMatchAt(other, p, i);
  }

  /**
   * Presence and magnitude are independent: when the first counter line holds
   * the value 0, or no number at all, the lore is protected while its count is 0.
   */
  lemma PresenceWithoutCharges(c: Config, lore: seq<string>, i: nat, value: string)
    requires SimpleTemplate(c)
    requires FirstMatch(lore, ReadPrefix(c)) == Some(i) && lore[i] == ReadPrefix(c) + value
    requires ':' !in value && (ToIntOrNull(value).None? || ToIntOrNull(value) == Some(0))
    ensures HasCounterLine(c, lore)
    ensures GetProtectionCount(c, lore) == 0
  {
    var p := ReadPrefix(c);
    assert p <= lore[i];
    AfterLastDelimiter(p, CountDelimiter, value);
  }

  // ---------------------------------------------------------------------------
  // Writing: updateProtectionLore
  // ---------------------------------------------------------------------------

  /**
   * The lore after writing `amount`: the first line starting with the write
   * prefix is overwritten with the rendered line, or the rendered line is
   * appended when there is none.
   */
  function WriteCounter(c: Config, lore: seq<string>, amount: Int32): (r: seq<string>)
    ensures |lore| <= |r| <= |lore| + 1
    ensures Render(c, amount) in r
    ensures forall x :: x in lore && !(WritePrefix(c) <= x) ==> x in r
  {
    var line := Render(c, amount);
    match FirstMatch(lore, WritePrefix(c))
    case Some(i) =>
      var r := lore[i := line];
      assert r[i] == line;
      assert forall j :: 0 <= j < |lore| && j != i ==> r[j] == lore[j];
      r
    case None =>
      var r := lore + [line];
      assert r[|lore|] == line;
      r
  }

  /**
   * `updateProtectionLore(lore, currentProtection)`: writes
   * `currentProtection + added_amount` (Kotlin `Int` addition) into the counter line.
   */
  method UpdateProtectionLore(c: Config, lore: seq<string>, currentProtection: Int32)
    returns (updated: seq<string>)
    ensures updated == WriteCounter(c, lore, Add32(currentProtection, c.addedAmount))
  {
    var newProtection := Add32(currentProtection, c.addedAmount);
    var protectionLore := Label(c);
    var updatedLore := Replace(protectionLore, Placeholder, IntToString(newProtection));
    var existingIndex := IndexOfFirst(lore, c.normalise(Replace(protectionLore, Placeholder, "")));
    if existingIndex != -1 {
      FirstMatchAt(lore, WritePrefix(c), existingIndex);
      updated := lore[existingIndex := updatedLore];
    } else {
      updated := lore + [updatedLore];
    }
  }

  /**
   * Writing replaces exactly the first counter line, leaving the length and
   * every other line as they were; with no counter line it appends one line
   * after all the old ones.
   */
  lemma WriteCounterShape(c: Config, lore: seq<string>, amount: Int32)
    ensures var out := WriteCounter(c, lore, amount);
      match FirstMatch(lore, WritePrefix(c))
      case Some(i) =>
        && |out| == |lore| && out[i] == Render(c, amount)
        && forall j :: 0 <= j < |lore| && j != i ==> out[j] == lore[j]
      case None =>
        && |out| == |lore| + 1 && out[..|lore|] == lore && out[|lore|] == Render(c, amount)
  {
  }

  /** Round trip: what `updateProtectionLore` writes, `getProtectionCount` reads back. */
  lemma WriteThenRead(c: Config, lore: seq<string>, amount: Int32)
    requires SimpleTemplate(c)
    ensures HasCounterLine(c, WriteCounter(c, lore, amount))
    ensures GetProtectionCount(c, WriteCounter(c, lore, amount)) == amount
  {
    var p := ReadPrefix(c);
    SimpleTemplateRender(c, amount);
    var digits := IntToString(amount);
    var line := Render(c, amount);
    var out := WriteCounter(c, lore, amount);
    match FirstMatch(lore, p) {
      case Some(i) =>
        FirstMatchAt(out, p, i);
        assert out[i] == line;
      case None =>
        FirstMatchAt(out, p, |lore|);
        assert out[|lore|] == line;
    }
    AfterLastDelimiter(p, CountDelimiter, digits);
    IntToStringRoundTrip(amount);
  }

  /** At most one line of `lore` starts with `prefix`. */
  predicate AtMostOneCounter(lore: seq<string>, prefix: string) {
    forall i, j :: 0 <= i < j < |lore| && prefix <= lore[i] ==> !(prefix <= lore[j])
  }

  /**
   * Under a simple template, writing the counter never creates a second counter
   * line: a lore with at most one keeps at most one, and the written line is it.
   */
  lemma WriteKeepsAtMostOneCounter(c: Config, lore: seq<string>, amount: Int32)
    requires SimpleTemplate(c) && AtMostOneCounter(lore, ReadPrefix(c))
    ensures AtMostOneCounter(WriteCounter(c, lore, amount), ReadPrefix(c))
  {
    SimpleTemplateRender(c, amount);
  }

  /** Writing the same value twice gives the same lore as writing it once. */
  lemma WriteCounterIdempotent(c: Config, lore: seq<string>, amount: Int32)
    requires WritePrefix(c) <= Render(c, amount)
    ensures WriteCounter(c, WriteCounter(c, lore, amount), amount) == WriteCounter(c, lore, amount)
  {
    var p := WritePrefix(c);
    var out := WriteCounter(c, lore, amount);
    match FirstMatch(lore, p) {
      case Some(i) => FirstMatchAt(out, p, i);
      case None => FirstMatchAt(out, p, |lore|);
    }
  }

  // ---------------------------------------------------------------------------
  // Removing: the removeAll of updateItemProtection
  // ---------------------------------------------------------------------------

  /** The lore with every line that starts with `prefix` removed, the rest in order. */
  function WithoutCounter(lore: seq<string>, prefix: string): (r: seq<string>)
    ensures |r| <= |lore|
    ensures forall x :: x in r <==> x in lore && !(prefix <= x)
    ensures (forall j :: 0 <= j < |lore| ==> !(prefix <= lore[j])) ==> r == lore
  {
    if lore == [] then []
    else
      var init, last := lore[..|lore| - 1], lore[|lore| - 1];
      assert lore == init + [last];
      if prefix <= last then WithoutCounter(init, prefix)
      else WithoutCounter(init, prefix) + [last]
  }

  /** `lore.removeAll { it.startsWith(prefix) }`. */
  method RemoveCounterLines(lore: seq<string>, prefix: string) returns (kept: seq<string>)
    ensures kept == WithoutCounter(lore, prefix)
  {
    kept := [];
    var i := 0;
    while i < |lore|
      invariant 0 <= i <= |lore|
      invariant kept == WithoutCounter(lore[..i], prefix)
    {
      assert lore[..i + 1][..i] == lore[..i];
      if !(prefix <= lore[i]) {
        kept := kept + [lore[i]];
      }
      i := i + 1;
    }
    assert lore[..i] == lore;
  }

  /** After removal no counter line is left. */
  lemma RemovedLeavesNoCounter(c: Config, lore: seq<string>)
    ensures !HasCounterLine(c, WithoutCounter(lore, ReadPrefix(c)))
  {
    var r := WithoutCounter(lore, ReadPrefix(c));
    forall j | 0 <= j < |r|
      ensures !(ReadPrefix(c) <= r[j])
    {
      assert r[j] in r;
    }
  }

  /** Replacing one counter line with another leaves the non-counter lines untouched. */
  lemma {:induction false} WithoutCounterUpdate(lore: seq<string>, prefix: string, i: nat, line: string)
    requires i < |lore| && prefix <= lore[i] && prefix <= line
    ensures WithoutCounter(lore[i := line], prefix) == WithoutCounter(lore, prefix)
  {
    var n := |lore|;
    var out := lore[i := line];
    assert out[..n - 1] == if i == n - 1 then lore[..n - 1] else lore[..n - 1][i := line];
    if i < n - 1 {
      WithoutCounterUpdate(lore[..n - 1], prefix, i, line);
    }
  }

  /**
   * Writing the counter never touches the non-counter lines: the same lines
   * remain, in the same order.
   */
  lemma WriteKeepsOtherLines(c: Config, lore: seq<string>, amount: Int32)
    requires SimpleTemplate(c)
    ensures WithoutCounter(WriteCounter(c, lore, amount), ReadPrefix(c)) == WithoutCounter(lore, ReadPrefix(c))
  {
    var p := ReadPrefix(c);
    SimpleTemplateRender(c, amount);
    var line := Render(c, amount);
    assert p <= line;
    match FirstMatch(lore, p) {
      case Some(i) =>
        WithoutCounterUpdate(lore, p, i, line);
      case None =>
        var out := lore + [line];
        assert out[..|out| - 1] == lore;
    }
  }
}
