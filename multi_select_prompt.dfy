/** A model of the multi-select prompt's state machine: an option catalog, a
    highlighted cursor that wraps around, and an ordered list of selected keys
    that key events move and toggle. */
module Prompts {

  // ---------------------------------------------------------------------------
  // Option catalog
  // ---------------------------------------------------------------------------

  /** The options the prompt was built with, in the order the PHP array holds them.
      A list-shaped array uses each option both as its key and as its label; a
      keyed array pairs each key with its own label. */
  datatype Catalog =
    | List(items: seq<string>)
    | Keyed(entries: seq<(string, string)>)

  function Count(c: Catalog): nat
  {
    match c
    case List(items) => |items|
    case Keyed(entries) => |entries|
  }

  /** The keys that selection works with, in catalog order: the options
      themselves for a list, `array_keys` for a keyed catalog. */
  function Keys(c: Catalog): (ks: seq<string>)
    ensures |ks| == Count(c)
    ensures c.List? ==> ks == c.items
    ensures c.Keyed? ==> forall i :: 0 <= i < |ks| ==> ks[i] == c.entries[i].0
  {
    match c
    case List(items) => items
    case Keyed(entries) => seq(|entries|, i requires 0 <= i < |entries| => entries[i].0)
  }

  /** The keys of a PHP array are unique. */
  ghost predicate DistinctKeys(entries: seq<(string, string)>)
  {
    forall i, j :: 0 <= i < j < |entries| ==> entries[i].0 != entries[j].0
  }

  /** What the prompt needs of its catalog: at least one option, unique keys. */
  ghost predicate WellFormed(c: Catalog)
  {
    Count(c) > 0 && (c.Keyed? ==> DistinctKeys(c.entries))
  }

  // ---------------------------------------------------------------------------
  // Cursor arithmetic
  // ---------------------------------------------------------------------------

  /** The index highlighted after moving back: one less, wrapping from the first
      option to the last. */
  function PreviousIndex(i: int, n: int): (j: int)
    requires 0 <= i < n
    ensures 0 <= j < n
    ensures j == (i - 1) % n
  {
    if i == 0 then n - 1 else i - 1
  }

  /** The index highlighted after moving forward: one more, wrapping from the
      last option to the first. */
  function NextIndex(i: int, n: int): (j: int)
    requires 0 <= i < n
    ensures 0 <= j < n
    ensures j == (i + 1) % n
  {
    if i == n - 1 then 0 else i + 1
  }

  /** The index reached from `i` by moving forward `k` times. */
  function NextTimes(i: int, n: int, k: nat): (j: int)
    requires 0 <= i < n
    ensures 0 <= j < n
  {
    if k == 0 then i else NextIndex(NextTimes(i, n, k - 1), n)
  }

  /** The index reached from `i` by moving back `k` times. */
  function PreviousTimes(i: int, n: int, k: nat): (j: int)
    requires 0 <= i < n
    ensures 0 <= j < n
  {
    if k == 0 then i else PreviousIndex(PreviousTimes(i, n, k - 1), n)
  }

  /** Moving back then forward, or forward then back, returns to the start,
      at the wrap-around boundaries too. */
  lemma MovesAreInverse(i: int, n: int)
    requires 0 <= i < n
    ensures NextIndex(PreviousIndex(i, n), n) == i
    ensures PreviousIndex(NextIndex(i, n), n) == i
  {
  }

  lemma ModSucc(x: int, n: int)
    requires n > 0
    ensures (x % n + 1) % n == (x + 1) % n
  {
    var q, r := x / n, x % n;
    assert x == q * n + r;
    if r + 1 < n {
      ModOfRemainder(x + 1, n, q, r + 1);
    } else {
      ModOfRemainder(x + 1, n, q + 1, 0);
    }
  }

  lemma ModPred(x: int, n: int)
    requires n > 0
    ensures (x % n - 1) % n == (x - 1) % n
  {
    var q, r := x / n, x % n;
    assert x == q * n + r;
    if r > 0 {
      ModOfRemainder(x - 1, n, q, r - 1);
    } else {
      ModOfRemainder(x - 1, n, q - 1, n - 1);
    }
  }

  /** Euclidean remainder is determined by any quotient/remainder split. */
  lemma ModOfRemainder(x: int, n: int, q: int, r: int)
    requires n > 0 && 0 <= r < n && x == q * n + r
    ensures x % n == r
  {
    var q', r' := x / n, x % n;
    var d := q - q';
    assert d * n == r' - r by {
      MulSub(q, q', n);
    }
    if d >= 1 {
      MulAtLeast(d, n);
    } else if d <= -1 {
      MulAtLeast(-d, n);
    }
  }

  lemma MulSub(a: int, b: int, n: int)
    ensures (a - b) * n == a * n - b * n
  {
  }

  lemma MulAtLeast(a: int, n: int)
    requires a >= 1 && n > 0
    ensures a * n >= n && (-a) * n <= -n
  {
  }

  /** Moving forward `k` times adds `k` modulo the number of options. */
  lemma {:induction false} NextTimesIsAddition(i: int, n: int, k: nat)
    requires 0 <= i < n
    ensures NextTimes(i, n, k) == (i + k) % n
  {
    if k == 0 {
      ModOfRemainder(i, n, 0, i);
    } else {
      NextTimesIsAddition(i, n, k - 1);
      ModSucc(i + k - 1, n);
    }
  }

  /** Moving back `k` times subtracts `k` modulo the number of options. */
  lemma {:induction false} PreviousTimesIsSubtraction(i: int, n: int, k: nat)
    requires 0 <= i < n
    ensures PreviousTimes(i, n, k) == (i - k) % n
  {
    if k == 0 {
      ModOfRemainder(i, n, 0, i);
    } else {
      PreviousTimesIsSubtraction(i, n, k - 1);
      ModPred(i - k + 1, n);
    }
  }

  /** A full cycle of `n` moves in either direction is the identity. */
  lemma FullCycle(i: int, n: int)
    requires 0 <= i < n
    ensures NextTimes(i, n, n) == i
    ensures PreviousTimes(i, n, n) == i
  {
    NextTimesIsAddition(i, n, n);
    ModOfRemainder(i + n, n, 1, i);
    PreviousTimesIsSubtraction(i, n, n);
    ModOfRemainder(i - n, n, -1, i);
  }

  // ---------------------------------------------------------------------------
  // Toggling a key
  // ---------------------------------------------------------------------------

  /** `s` with every occurrence of `k` dropped, the rest in their original order. */
  function RemoveAll(s: seq<string>, k: string): (r: seq<string>)
    ensures k !in r
    ensures forall x :: x != k ==> multiset(r)[x] == multiset(s)[x]
    ensures |r| == |s| - multiset(s)[k]
  {
    if s == [] then []
    else
      assert s == [s[0]] + s[1..];
      if s[0] == k then RemoveAll(s[1..], k)
      else [s[0]] + RemoveAll(s[1..], k)
  }

  /** Removal keeps order: it works piecewise on a concatenation. */
  lemma {:induction false} RemoveAllAppend(s: seq<string>, t: seq<string>, k: string)
    ensures RemoveAll(s + t, k) == RemoveAll(s, k) + RemoveAll(t, k)
  {
    if s == [] {
      assert s + t == t;
    } else {
      var u := s + t;
      assert u[0] == s[0] && u[1..] == s[1..] + t;
      RemoveAllAppend(s[1..], t, k);
      if s[0] != k {
        assert RemoveAll(u, k) == [s[0]] + RemoveAll(u[1..], k);
        assert RemoveAll(s, k) == [s[0]] + RemoveAll(s[1..], k);
      }
    }
  }

  /** Removing a key that is not there changes nothing. */
  lemma {:induction false} RemoveAllAbsent(s: seq<string>, k: string)
    requires k !in s
    ensures RemoveAll(s, k) == s
  {
    if s != [] {
      RemoveAllAbsent(s[1..], k);
    }
  }

  /** The selection after toggling `k`: every occurrence removed when it is
      selected, otherwise appended after the current entries. */
  function Toggled(s: seq<string>, k: string): (r: seq<string>)
    ensures (k in r) == (k !in s)
    ensures forall x :: x != k ==> multiset(r)[x] == multiset(s)[x]
    ensures k in s ==> r == RemoveAll(s, k)
    ensures k !in s ==> |r| == |s| + 1 && r[..|s|] == s && r[|s|] == k
  {
    if k in s then RemoveAll(s, k) else s + [k]
  }

  /** Toggling a key twice restores which keys are selected. */
  lemma ToggleTwiceRestoresMembership(s: seq<string>, k: string, x: string)
    ensures x in Toggled(Toggled(s, k), k) <==> x in s
  {
    if x != k {
      assert multiset(Toggled(Toggled(s, k), k))[x] == multiset(s)[x];
    }
  }

  /** When `k` was not selected, toggling it twice restores the exact selection. */
  lemma ToggleTwiceUnselected(s: seq<string>, k: string)
    requires k !in s
    ensures Toggled(Toggled(s, k), k) == s
  {
    RemoveAllAppend(s, [k], k);
    RemoveAllAbsent(s, k);
  }

  /** When `k` was selected, toggling it twice drops its occurrences and puts
      one back at the end: membership comes back, order need not. */
  lemma ToggleTwiceSelected(s: seq<string>, k: string)
    requires k in s
    ensures Toggled(Toggled(s, k), k) == RemoveAll(s, k) + [k]
  {
  }

  /** An instance of `ToggleTwiceSelected`: a selected key that was not last
      ends up last. */
  lemma ToggleTwiceReorders()
    ensures Toggled(Toggled(["a", "b"], "a"), "a") == ["b", "a"]
  {
  }

  // ---------------------------------------------------------------------------
  // Labels
  // ---------------------------------------------------------------------------

  /** The labels of the keyed entries whose key is selected, in catalog order. */
  function SelectedLabels(entries: seq<(string, string)>, values: seq<string>): (r: seq<string>)
    ensures |r| <= |entries|
    ensures forall l :: l in r <==> exists i :: 0 <= i < |entries| && entries[i].0 in values && entries[i].1 == l
  {
    if entries == [] then []
    else
      var rest := SelectedLabels(entries[1..], values);
      assert forall l :: l in rest <==> exists i :: 1 <= i < |entries| && entries[i].0 in values && entries[i].1 == l by {
        forall l | l in rest ensures exists i :: 1 <= i < |entries| && entries[i].0 in values && entries[i].1 == l {
          var j :| 0 <= j < |entries[1..]| && entries[1..][j].0 in values && entries[1..][j].1 == l;
          assert entries[j + 1] == entries[1..][j];
        }
        forall l | exists i :: 1 <= i < |entries| && entries[i].0 in values && entries[i].1 == l ensures l in rest {
          var i :| 1 <= i < |entries| && entries[i].0 in values && entries[i].1 == l;
          assert entries[1..][i - 1] == entries[i];
        }
      }
      (if entries[0].0 in values then [entries[0].1] else []) + rest
  }

  /** Labels come out in catalog order: the result splits along the catalog. */
  lemma {:induction false} SelectedLabelsAppend(e1: seq<(string, string)>, e2: seq<(string, string)>, values: seq<string>)
    ensures SelectedLabels(e1 + e2, values) == SelectedLabels(e1, values) + SelectedLabels(e2, values)
  {
    if e1 == [] {
      assert e1 + e2 == e2;
    } else {
      assert (e1 + e2)[0] == e1[0];
      assert (e1 + e2)[1..] == e1[1..] + e2;
      SelectedLabelsAppend(e1[1..], e2, values);
    }
  }

  /** Only membership in the selection matters: its order and duplicates do not. */
  lemma {:induction false} SelectedLabelsMembershipOnly(entries: seq<(string, string)>, v1: seq<string>, v2: seq<string>)
    requires forall x :: x in v1 <==> x in v2
    ensures SelectedLabels(entries, v1) == SelectedLabels(entries, v2)
  {
    if entries != [] {
      SelectedLabelsMembershipOnly(entries[1..], v1, v2);
    }
  }

  /** The set of keys of a keyed catalog. */
  ghost function KeySet(entries: seq<(string, string)>): set<string>
  {
    set i | 0 <= i < |entries| :: entries[i].0
  }

  lemma KeySetCons(entries: seq<(string, string)>)
    requires entries != []
    ensures KeySet(entries) == {entries[0].0} + KeySet(entries[1..])
  {
  }

  lemma DistinctKeysTail(entries: seq<(string, string)>)
    requires entries != [] && DistinctKeys(entries)
    ensures DistinctKeys(entries[1..])
    ensures entries[0].0 !in KeySet(entries[1..])
  {
  }

  /** With unique catalog keys, there is one label per distinct selected key
      that the catalog has; selected keys the catalog lacks give none. */
  lemma {:induction false} SelectedLabelsCount(entries: seq<(string, string)>, values: seq<string>)
    requires DistinctKeys(entries)
    ensures |SelectedLabels(entries, values)| == |KeySet(entries) * (set x | x in values)|
  {
    var chosen := set x | x in values;
    if entries == [] {
      assert KeySet(entries) == {};
    } else {
      var rest := entries[1..];
      var k := entries[0].0;
      DistinctKeysTail(entries);
      KeySetCons(entries);
      SelectedLabelsCount(rest, values);
      var restChosen := KeySet(rest) * chosen;
      assert SelectedLabels(entries, values)
        == (if k in values then [entries[0].1] else []) + SelectedLabels(rest, values);
      if k in values {
        assert KeySet(entries) * chosen == {k} + restChosen;
        assert k !in restChosen;
      } else {
        assert KeySet(entries) * chosen == restChosen;
      }
    }
  }

  /** What `labels()` returns: the whole option list for a list catalog,
      whatever is selected; for a keyed catalog the labels of the selected
      keys, in catalog order. */
  function LabelsOf(c: Catalog, values: seq<string>): (r: seq<string>)
    ensures c.List? ==> r == c.items
    ensures c.Keyed? ==> r == SelectedLabels(c.entries, values)
  {
    match c
    case List(items) => items
    case Keyed(entries) => SelectedLabels(entries, values)
  }

  // ---------------------------------------------------------------------------
  // Key events
  // ---------------------------------------------------------------------------

  /** The key events the prompt distinguishes; `Char` carries a single
      printable character and `Other` stands for every other key code. */
  datatype Key = Up | Down | Left | Right | Space | Char(c: char) | Other

  /** What the key handler does with an event. */
  datatype Action = MovePrevious | MoveNext | ToggleSelection | Ignore

  /** The handler's dispatch table. The space key arrives as the one-character
      string " ", so a `Char(' ')` is the space key too. */
  function Dispatch(key: Key): (a: Action)
    ensures a == MovePrevious <==> key in {Up, Left, Char('k'), Char('h')}
    ensures a == MoveNext <==> key in {Down, Right, Char('j'), Char('l')}
    ensures a == ToggleSelection <==> key in {Space, Char(' ')}
  {
    match key
    case Up | Left => MovePrevious
    case Down | Right => MoveNext
    case Space => ToggleSelection
    case Char(c) =>
      if c == 'k' || c == 'h' then MovePrevious
      else if c == 'j' || c == 'l' then MoveNext
      else if c == ' ' then ToggleSelection
      else Ignore
    case Other => Ignore
  }

  // ---------------------------------------------------------------------------
  // The prompt
  // ---------------------------------------------------------------------------

  class MultiSelectPrompt {
    const options: Catalog
    var highlighted: int
    var values: seq<string>

    ghost predicate Valid()
      reads this
    {
      WellFormed(options) && 0 <= highlighted < Count(options)
    }

    /** The cursor starts on the first option; the defaults become the
        selection exactly as given, duplicates and unknown keys included. */
    constructor (options: Catalog, defaults: seq<string>)
      requires WellFormed(options)
      ensures Valid()
      ensures this.options == options && highlighted == 0 && values == defaults
    {
      this.options := options;
      highlighted := 0;
      values := defaults;
    }

    /** The selected keys in the order they were selected. */
    function Value(): (r: seq<string>)
      reads this
      ensures r == values
    {
      values
    }

    function Labels(): (r: seq<string>)
      reads this
      ensures r == LabelsOf(options, values)
    {
      LabelsOf(options, values)
    }

    /** Whether `v` is the key of the option under the cursor. */
    predicate IsHighlighted(v: string)
      reads this
      requires Valid()
      ensures IsHighlighted(v) <==> v == Keys(options)[highlighted]
      ensures IsHighlighted(v) && options.Keyed? ==>
        forall i :: 0 <= i < Count(options) && Keys(options)[i] == v ==> i == highlighted
    {
      Keys(options)[highlighted] == v
    }

    /** Whether `v` is among the selected keys. */
    predicate IsSelected(v: string)
      reads this
      ensures IsSelected(v) <==> v in values
    {
      v in values
    }

    method HighlightPrevious()
      requires Valid()
      modifies this
      ensures Valid()
      ensures highlighted == PreviousIndex(old(highlighted), Count(options))
      ensures values == old(values)
    {
      highlighted := if highlighted == 0 then Count(options) - 1 else highlighted - 1;
    }

    method HighlightNext()
      requires Valid()
      modifies this
      ensures Valid()
      ensures highlighted == NextIndex(old(highlighted), Count(options))
      ensures values == old(values)
    {
      highlighted := if highlighted == Count(options) - 1 then 0 else highlighted + 1;
    }

    method ToggleHighlighted()
      requires Valid()
      modifies this
      ensures Valid()
      ensures highlighted == old(highlighted)
      ensures values == Toggled(old(values), Keys(options)[highlighted])
      ensures IsSelected(Keys(options)[highlighted]) == !old(IsSelected(Keys(options)[highlighted]))
    {
      var key := Keys(options)[highlighted];
      if key in values {
        values := RemoveAll(values, key);
      } else {
        values := values + [key];
      }
    }

    /** The key handler: back, forward or toggle by the dispatch table; any
        other key leaves the prompt as it was. */
    method HandleKey(key: Key)
      requires Valid()
      modifies this
      ensures Valid()
      ensures Dispatch(key) == MovePrevious ==>
        highlighted == PreviousIndex(old(highlighted), Count(options)) && values == old(values)
      ensures Dispatch(key) == MoveNext ==>
        highlighted == NextIndex(old(highlighted), Count(options)) && values == old(values)
      ensures Dispatch(key) == ToggleSelection ==>
        highlighted == old(highlighted) && values == Toggled(old(values), Keys(options)[highlighted])
      ensures Dispatch(key) == Ignore ==>
        highlighted == old(highlighted) && values == old(values)
    {
      match Dispatch(key)
      case MovePrevious => HighlightPrevious();
      case MoveNext => HighlightNext();
      case ToggleSelection => ToggleHighlighted();
      case Ignore =>
    }
  }

  // ---------------------------------------------------------------------------
  // Sessions
  // ---------------------------------------------------------------------------

  /** A list catalog of three colours, no defaults, keys down, space, down,
      space: the last two colours are selected, the cursor is on the last one,
      and the labels are the whole list. */
  method ListCatalogSession() returns (value: seq<string>, labels: seq<string>, highlighted: int)
    ensures value == ["Green", "Blue"]
    ensures labels == ["Red", "Green", "Blue"]
    ensures highlighted == 2
  {
    var p := new MultiSelectPrompt(List(["Red", "Green", "Blue"]), []);
    p.HandleKey(Down);
    p.HandleKey(Space);
    p.HandleKey(Down);
    p.HandleKey(Space);
    value, labels, highlighted := p.Value(), p.Labels(), p.highlighted;
  }

  /** A keyed catalog r => Red, g => Green with g selected by default, then
      space on r: the value keeps selection order, the labels catalog order. */
  method KeyedCatalogSession() returns (value: seq<string>, labels: seq<string>)
    ensures value == ["g", "r"]
    ensures labels == ["Red", "Green"]
  {
    var entries := [("r", "Red"), ("g", "Green")];
    var p := new MultiSelectPrompt(Keyed(entries), ["g"]);
    assert Keys(Keyed(entries))[0] == "r";
    p.HandleKey(Space);
    assert p.values == ["g", "r"];
    assert entries[1..] == [("g", "Green")] && entries[1..][1..] == [];
    assert "r" in p.values && "g" in p.values;
    assert SelectedLabels(entries[1..][1..], p.values) == [];
    assert SelectedLabels(entries[1..], p.values) == ["Green"];
    value, labels := p.Value(), p.Labels();
  }
}
