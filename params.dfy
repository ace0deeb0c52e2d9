/** The plugin's default webservice parameters: the `default_params` setting,
    a comma-separated list of `name:value` items, is parsed once when the
    plugin is constructed, and every webservice call merges those defaults
    with its own parameters. */
module DefaultParams {

  datatype Option<+T> = None | Some(value: T)

  // ---------------------------------------------------------------------------
  // Splitting a string on one separator character (PHP's `explode`)
  // ---------------------------------------------------------------------------

  /** The pieces of `parts` glued back together with `sep` between them
      (PHP's `implode`). */
  function Join(parts: seq<string>, sep: char): string
    requires |parts| >= 1
  {
    if |parts| == 1 then parts[0] else parts[0] + [sep] + Join(parts[1..], sep)
  }

  /** `s` cut at every occurrence of `sep`: always at least one piece, empty
      pieces kept (so ",a," gives three pieces), no piece holding `sep`. */
  function Split(s: string, sep: char): (parts: seq<string>)
    ensures |parts| >= 1
    ensures forall i :: 0 <= i < |parts| ==> sep !in parts[i]
    ensures Join(parts, sep) == s
    ensures |parts| > 1 <==> sep in s
  {
    if s == [] then [""]
    else
      var rest := Split(s[1..], sep);
      if s[0] == sep then [""] + rest
      else
        assert s == [s[0]] + s[1..];
        [[s[0]] + rest[0]] + rest[1..]
  }

  /** Splitting what was joined gives back the pieces, as long as no piece
      held the separator. */
  lemma {:induction false} SplitJoin(parts: seq<string>, sep: char)
    requires |parts| >= 1
    requires forall i :: 0 <= i < |parts| ==> sep !in parts[i]
    ensures Split(Join(parts, sep), sep) == parts
  {
    if |parts| == 1 {
      SplitNoSeparator(parts[0], sep);
    } else {
      SplitJoin(parts[1..], sep);
      SplitAfterPiece(parts[0], Join(parts[1..], sep), sep);
    }
  }

  lemma {:induction false} SplitNoSeparator(s: string, sep: char)
    requires sep !in s
    ensures Split(s, sep) == [s]
  {
    if s != [] {
      SplitNoSeparator(s[1..], sep);
    }
  }

  /** A separator-free piece followed by the separator adds exactly one piece
      in front. */
  lemma {:induction false} SplitAfterPiece(piece: string, tail: string, sep: char)
    requires sep !in piece
    ensures Split(piece + [sep] + tail, sep) == [piece] + Split(tail, sep)
  {
    if piece == [] {
      assert piece + [sep] + tail == [sep] + tail;
      assert ([sep] + tail)[1..] == tail;
    } else {
      var s := piece + [sep] + tail;
      assert s[0] == piece[0];
      assert s[1..] == piece[1..] + [sep] + tail;
      SplitAfterPiece(piece[1..], tail, sep);
      assert [piece[0]] + piece[1..] == piece;
    }
  }

  // ---------------------------------------------------------------------------
  // Parsing `default_params` (auth.php, plugin constructor)
  // ---------------------------------------------------------------------------

  const ItemSeparator := ','
  const NameValueSeparator := ':'

  /** An item is usable when it holds a `:`; `list($name, $value) =
      explode(':', $p)` leaves `$value` undefined otherwise. */
  predicate WellFormedItem(item: string)
  {
    NameValueSeparator in item
  }

  /** An item's name and value: the text before its first `:`, and the text
      between that `:` and the next one (or the end), since `list()` ignores
      any further pieces. */
  function ItemPair(item: string): (string, string)
    requires WellFormedItem(item)
  {
    var parts := Split(item, NameValueSeparator);
    (parts[0], parts[1])
  }

  predicate WellFormedItems(items: seq<string>)
  {
    forall i :: 0 <= i < |items| ==> WellFormedItem(items[i])
  }

  function ItemPairs(items: seq<string>): (pairs: seq<(string, string)>)
    requires WellFormedItems(items)
    ensures |pairs| == |items|
    ensures forall i :: 0 <= i < |items| ==> pairs[i] == ItemPair(items[i])
  {
    seq(|items|, i requires 0 <= i < |items| => ItemPair(items[i]))
  }

  /** The dictionary built by assigning each name its value in turn, so that a
      later pair overwrites an earlier one with the same name. */
  function Assign(pairs: seq<(string, string)>): map<string, string>
  {
    if pairs == [] then map[]
    else
      var last := pairs[|pairs| - 1];
      Assign(pairs[..|pairs| - 1])[last.0 := last.1]
  }

  /** PHP's `empty()` on a string setting: unset, "" and "0" all count as
      empty. */
  predicate IsEmptySetting(setting: Option<string>)
  {
    setting.None? || setting.value == "" || setting.value == "0"
  }

  predicate WellFormedSetting(setting: Option<string>)
  {
    IsEmptySetting(setting) || WellFormedItems(Split(setting.value, ItemSeparator))
  }

  /** What the constructor stores as `ws_default_params`. */
  function DefaultParamsOf(setting: Option<string>): map<string, string>
    requires WellFormedSetting(setting)
  {
    if IsEmptySetting(setting) then map[]
    else Assign(ItemPairs(Split(setting.value, ItemSeparator)))
  }

  /** The constructor's loop: explode the setting on `,`, then each item on
      `:`, and assign name to value in a fresh dictionary. */
  method ParseDefaultParams(setting: Option<string>) returns (params: map<string, string>)
    requires WellFormedSetting(setting)
    ensures params == DefaultParamsOf(setting)
  {
    if IsEmptySetting(setting) {
      return map[];
    }
    var items := Split(setting.value, ItemSeparator);
    ghost var pairs := ItemPairs(items);
    params := map[];
    for i := 0 to |items|
      invariant params == Assign(pairs[..i])
    {
      var parts := Split(items[i], NameValueSeparator);
      assert pairs[..i + 1][..i] == pairs[..i];
      params := params[parts[0] := parts[1]];
    }
    assert pairs[..|items|] == pairs;
  }

  /** Every name that occurs in the pairs is a key, and nothing else is. */
  lemma {:induction false} AssignKeys(pairs: seq<(string, string)>)
    ensures Assign(pairs).Keys == set i | 0 <= i < |pairs| :: pairs[i].0
  {
    if pairs != [] {
      var n := |pairs| - 1;
      var prefix := pairs[..n];
      AssignKeys(prefix);
      assert forall i :: 0 <= i < n ==> prefix[i] == pairs[i];
      assert (set i | 0 <= i < |pairs| :: pairs[i].0) == (set i | 0 <= i < n :: prefix[i].0) + {pairs[n].0};
    }
  }

  /** The value stored under a name is the value of the LAST pair with that
      name. */
  lemma {:induction false} AssignLastWins(pairs: seq<(string, string)>, i: nat)
    requires i < |pairs|
    requires forall j :: i < j < |pairs| ==> pairs[j].0 != pairs[i].0
    ensures pairs[i].0 in Assign(pairs)
    ensures Assign(pairs)[pairs[i].0] == pairs[i].1
  {
    var n := |pairs| - 1;
    if i < n {
      var prefix := pairs[..n];
      assert forall j :: i < j < n ==> prefix[j] == pairs[j];
      AssignLastWins(prefix, i);
    }
  }

  /** Parsing a single item whose value holds no further `:` gives back
      exactly that name and value. */
  lemma ParseSingleItem(name: string, value: string)
    requires ItemSeparator !in name && NameValueSeparator !in name
    requires ItemSeparator !in value && NameValueSeparator !in value
    ensures DefaultParamsOf(Some(name + [NameValueSeparator] + value)) == map[name := value]
  {
    var item := name + [NameValueSeparator] + value;
    assert item[|name|] == NameValueSeparator;
    assert ItemSeparator !in item;
    SplitNoSeparator(item, ItemSeparator);
    SplitJoin([name, value], NameValueSeparator);
    assert Join([name, value], NameValueSeparator) == item;
    assert ItemPair(item) == (name, value);
    assert ItemPairs([item]) == [(name, value)];
    assert [(name, value)][..0] == [];
    assert Assign([(name, value)]) == map[][name := value];
  }

  // ---------------------------------------------------------------------------
  // Merging defaults with call parameters (auth.php, call_ws)
  // ---------------------------------------------------------------------------

  predicate IsDigit(c: char)
  {
    '0' <= c <= '9'
  }

  /** A non-empty run of decimal digits without a leading zero. */
  predicate CanonicalDigits(d: string)
  {
    |d| >= 1 && d[0] != '0' && forall i :: 0 <= i < |d| ==> IsDigit(d[i])
  }

  function DigitsValue(d: string): nat
    requires forall i :: 0 <= i < |d| ==> IsDigit(d[i])
  {
    if d == [] then 0
    else
      assert IsDigit(d[|d| - 1]);
      10 * DigitsValue(d[..|d| - 1]) + (d[|d| - 1] as int - '0' as int)
  }

  /** A string PHP turns into an integer array key: "0", or a canonical
      decimal integer that fits in 64 bits. */
  predicate IsIntegerKey(k: string)
  {
    || k == "0"
    || (CanonicalDigits(k) && DigitsValue(k) <= 0x7FFF_FFFF_FFFF_FFFF)
    || (|k| >= 2 && k[0] == '-' && CanonicalDigits(k[1..])
        && DigitsValue(k[1..]) <= 0x8000_0000_0000_0000)
  }

  predicate StringKeysOnly(m: map<string, string>)
  {
    forall k :: k in m ==> !IsIntegerKey(k)
  }

  /** `array_merge($defaults, $params)` on string keys: the call's own
      parameters are added to the defaults and win on a shared name. */
  function MergeParams(defaults: map<string, string>, call: map<string, string>): (merged: map<string, string>)
    requires StringKeysOnly(defaults) && StringKeysOnly(call)
    ensures merged.Keys == defaults.Keys + call.Keys
    ensures forall k :: k in call ==> merged[k] == call[k]
    ensures forall k :: k in defaults && k !in call ==> merged[k] == defaults[k]
    ensures StringKeysOnly(merged)
  {
    defaults + call
  }
}
