/**
 * The three dropdown lists of an item view (ItemViewControl.xaml.cs:565-615,
 * 778-925). Each list shows one level of the file tree; an entry's value is
 * a file path, and the `"--"` entry with value `""` stands for a missing
 * level. Display names are not part of this model.
 */
module ComboLists {
  import opened Wrappers
  import opened Decimal

  /** A dropdown entry: the `"--"` placeholder or a file path. */
  datatype ComboEntry = Placeholder | Path(path: string) {
    /** The `Value` half of the entry's key/value pair. */
    function Value(): string {
      if Placeholder? then "" else path
    }
  }

  function Values(list: seq<ComboEntry>): (vs: seq<string>)
    ensures |vs| == |list| && forall i :: 0 <= i < |list| ==> vs[i] == list[i].Value()
  {
    seq(|list|, i requires 0 <= i < |list| => list[i].Value())
  }

  /** The position of the first blank key, where the list building stops. */
  function BlankAt(keys: seq<string>): (n: nat)
    ensures n <= |keys|
    ensures forall k :: 0 <= k < n ==> keys[k] != ""
    ensures n < |keys| ==> keys[n] == ""
  {
    if keys == [] || keys[0] == "" then 0 else BlankAt(keys[1..]) + 1
  }

  /**
   * The list built from a level's keys: one entry per key up to the first
   * blank one, then the placeholder if a blank key stopped it or if there
   * was no key at all.
   */
  function ComboList(keys: seq<string>): (r: seq<ComboEntry>)
    ensures |r| > 0
  {
    var n := BlankAt(keys);
    var paths := seq(n, i requires 0 <= i < n => Path(keys[i]));
    if n < |keys| || n == 0 then paths + [Placeholder] else paths
  }

  /**
   * A list is never empty; it shows the keys in order up to the first
   * blank one and then ends with the placeholder when a blank key stopped
   * it or there was no key, so it holds nothing else; it starts with the
   * placeholder exactly when there is no key or the first key is blank;
   * and without blank keys it shows them all.
   */
  lemma ComboListSpec(keys: seq<string>)
    ensures var r := ComboList(keys);
            var n := BlankAt(keys);
            && |r| > 0
            && Values(r)[..n] == keys[..n]
            && (r[0] == Placeholder <==> keys == [] || keys[0] == "")
            && |r| == (if n < |keys| || n == 0 then n + 1 else n)
            && ((n < |keys| || n == 0) ==> r[|r| - 1] == Placeholder)
            && (forall i :: 0 <= i < |r| && r[i] == Placeholder ==> i == |r| - 1)
            && ("" !in keys && keys != [] ==> Values(r) == keys)
  {
    var r := ComboList(keys);
    var n := BlankAt(keys);
    assert forall i :: 0 <= i < n ==> r[i] == Path(keys[i]);
    if "" !in keys && keys != [] {
      assert n == |keys| by {
        assert forall k :: 0 <= k < |keys| ==> keys[k] in keys;
      }
    }
  }

  /**
   * The loop of `AddModels`, `AddMaterials` and `AddTextures`
   * (ItemViewControl.xaml.cs:780-797): an entry per key until a blank key,
   * which adds the placeholder and stops; the placeholder alone when
   * nothing was added.
   */
  method BuildList(keys: seq<string>) returns (list: seq<ComboEntry>)
    ensures list == ComboList(keys)
  {
    list := [];
    var i := 0;
    while i < |keys|
      invariant 0 <= i <= BlankAt(keys)
      invariant list == seq(i, k requires 0 <= k < i => Path(keys[k]))
    {
      if keys[i] == "" {
        list := list + [Placeholder];
        return;
      }
      list := list + [Path(keys[i])];
      i := i + 1;
    }
    if |list| == 0 {
      list := [Placeholder];
    }
  }

  /**
   * Target-or-first selection: the first entry whose value is the target
   * when the target is set and listed, otherwise the first entry.
   */
  function SelectedIndex(list: seq<ComboEntry>, target: Option<string>): (i: nat)
    requires |list| > 0
    ensures i < |list|
    ensures target.Some? && target.value in Values(list) ==>
              list[i].Value() == target.value && forall k :: 0 <= k < i ==> list[k].Value() != target.value
    ensures !(target.Some? && target.value in Values(list)) ==> i == 0
  {
    if target.Some? && target.value in Values(list) then FirstWithValue(list, target.value) else 0
  }

  /**
   * The value a rebuilt dropdown shows (`SelectedValue` after `AddModels`,
   * `AddMaterials` or `AddTextures`): the target when it is listed,
   * otherwise the value of the first entry.
   */
  function SelectedValue(list: seq<ComboEntry>, target: Option<string>): (v: string)
    requires |list| > 0
    ensures target.Some? && target.value in Values(list) ==> v == target.value
    ensures !(target.Some? && target.value in Values(list)) ==> v == list[0].Value()
  {
    list[SelectedIndex(list, target)].Value()
  }

  /** The first position whose entry has value `v` (`FirstOrDefault` on the list). */
  function FirstWithValue(list: seq<ComboEntry>, v: string): (i: nat)
    requires exists k :: 0 <= k < |list| && list[k].Value() == v
    ensures i < |list| && list[i].Value() == v
    ensures forall k :: 0 <= k < i ==> list[k].Value() != v
  {
    if list[0].Value() == v then 0
    else
      var k :| 0 <= k < |list| && list[k].Value() == v;
      assert list[1..][k - 1] == list[k];
      FirstWithValue(list[1..], v) + 1
  }

  /** The count a watermark shows: none when the list is empty or starts with the placeholder. */
  function WatermarkCount(list: seq<ComboEntry>): (c: nat)
    ensures c <= |list|
    ensures c == 0 <==> list == [] || list[0].Value() == ""
  {
    if list == [] || list[0].Value() == "" then 0 else |list|
  }

  /**
   * The count shown for a level: the keys before the first blank one,
   * plus one for the placeholder when a blank key stopped the list after
   * some paths.
   */
  lemma WatermarkCountSpec(keys: seq<string>)
    ensures var n := BlankAt(keys);
            WatermarkCount(ComboList(keys)) == if n == 0 then 0 else if n < |keys| then n + 1 else n
  {
    var r := ComboList(keys);
    var n := BlankAt(keys);
    if n > 0 { assert r[0] == Path(keys[0]); }
  }

  /** The watermark text: the singular word for exactly one entry, the plural otherwise, then the count. */
  function Watermark(singular: string, plural: string, list: seq<ComboEntry>): (w: string)
    ensures var word := if WatermarkCount(list) == 1 then singular else plural;
            && |w| > |word| + 3
            && w[..|word| + 2] == word + " ("
            && w[|w| - 1] == ')'
  {
    var ct := WatermarkCount(list);
    (if ct == 1 then singular else plural) + " (" + FormatInt(ct) + ")"
  }

  /** The count in a watermark can be read back from its text. */
  lemma WatermarkReadBack(singular: string, plural: string, list: seq<ComboEntry>)
    requires |list| <= Int32Max
    ensures var w := Watermark(singular, plural, list);
            var word := if WatermarkCount(list) == 1 then singular else plural;
            && w[..|word| + 2] == word + " ("
            && w[|w| - 1] == ')'
            && ParseInt(w[|word| + 2..|w| - 1]) == Some(WatermarkCount(list))
  {
    var ct := WatermarkCount(list);
    var word := if ct == 1 then singular else plural;
    var w := Watermark(singular, plural, list);
    assert w == word + " (" + FormatInt(ct) + ")";
    assert w[|word| + 2..|w| - 1] == FormatInt(ct);
    ParseFormatRoundTrip(ct);
  }
}
