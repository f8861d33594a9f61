/**
  The action menu's key sequences (src/action.rs) and the handler that reads them (src/app/interaction_reducer.rs).
  A menu opens only if the validator accepts its sequences; an accepted ASCII set decodes in one way only.
 */
module TransientKeys {
  import opened Wrappers
  import opened Utf8

  type ActionId = nat

  /** `transient_sequence`. */
  type Table = ActionId -> Option<string>

  datatype SequenceError =
    | NoSequence(id: ActionId)
    | InvalidDepth(id: ActionId)
    | ReservedSequence(sequence: string)
    | DuplicateSequence(sequence: string, other: ActionId, id: ActionId)
    | LeafIsPrefix(sequence: string)

  /** `str::len`: a count of bytes. */
  function ByteLength(s: string): nat {
    |EncodeAll(s)|
  }

  predicate IsReserved(s: string) {
    s in ["[", "]", "q", ":", "/", "?"]
  }

  /** Six keys are reserved, each only as a whole sequence. */
  lemma ReservedExactly(s: string)
    ensures IsReserved(s) <==> |s| == 1 && s[0] in {'[', ']', 'q', ':', '/', '?'}
  {
    assert |s| == 1 ==> s == [s[0]];
  }

  /** One or two keys, and not a key the menu keeps for itself. */
  predicate IsUsable(sequence: Option<string>) {
    sequence.Some? && 1 <= |sequence.value| <= 2 && !IsReserved(sequence.value)
  }

  /** The validator's test of a leaf against another sequence: it takes two bytes for two keys. */
  predicate Shadows(leaf: string, candidate: string) {
    |leaf| == 1 && ByteLength(candidate) == 2 && leaf <= candidate
  }

  predicate AllUsable(actions: seq<ActionId>, table: Table) {
    forall i :: 0 <= i < |actions| ==> IsUsable(table(actions[i]))
  }

  predicate Distinct(actions: seq<ActionId>, table: Table) {
    forall i, j :: 0 <= i < j < |actions| ==> table(actions[i]) != table(actions[j])
  }

  predicate NoneShadowed(actions: seq<ActionId>, table: Table)
    requires AllUsable(actions, table)
  {
    forall i, j :: 0 <= i < |actions| && 0 <= j < |actions| ==>
      !Shadows(table(actions[i]).value, table(actions[j]).value)
  }

  predicate Accepts(actions: seq<ActionId>, table: Table) {
    AllUsable(actions, table) && Distinct(actions, table) && NoneShadowed(actions, table)
  }

  /** What each refusal asserts about the menu. */
  ghost predicate Justified(actions: seq<ActionId>, table: Table, error: SequenceError) {
    match error
    case NoSequence(id) => id in actions && table(id) == None
    case InvalidDepth(id) => id in actions && table(id).Some? && !(1 <= |table(id).value| <= 2)
    case ReservedSequence(sequence) => IsReserved(sequence) && exists id :: id in actions && table(id) == Some(sequence)
    case DuplicateSequence(sequence, other, id) =>
      exists i, j :: 0 <= i < j < |actions| && actions[i] == other && actions[j] == id
                  && table(other) == table(id) == Some(sequence)
    case LeafIsPrefix(sequence) =>
      exists id, other :: id in actions && other in actions && table(id) == Some(sequence) && table(other).Some?
                       && Shadows(sequence, table(other).value)
  }

  /** The map of the first `i` actions' sequences, which are usable and distinct. */
  ghost predicate Recorded(actions: seq<ActionId>, table: Table, i: nat, sequences: map<string, ActionId>) {
    && i <= |actions|
    && (forall k :: 0 <= k < i ==> IsUsable(table(actions[k])) && table(actions[k]).value in sequences)
    && (forall k, j :: 0 <= k < j < i ==> table(actions[k]) != table(actions[j]))
    && (forall s :: s in sequences ==>
          exists k :: 0 <= k < i && actions[k] == sequences[s] && table(actions[k]) == Some(s))
  }

  lemma RecordsOneMore(actions: seq<ActionId>, table: Table, i: nat, sequences: map<string, ActionId>)
    requires i < |actions| && Recorded(actions, table, i, sequences)
    requires IsUsable(table(actions[i])) && table(actions[i]).value !in sequences
    ensures Recorded(actions, table, i + 1, sequences[table(actions[i]).value := actions[i]])
  {
    var more := sequences[table(actions[i]).value := actions[i]];
    forall s | s in more
      ensures exists k :: 0 <= k < i + 1 && actions[k] == more[s] && table(actions[k]) == Some(s)
    {
      if s == table(actions[i]).value {
        assert actions[i] == more[s];
      } else {
        var k :| 0 <= k < i && actions[k] == sequences[s] && table(actions[k]) == Some(s);
        assert actions[k] == more[s];
      }
    }
  }

  lemma RecordedTwice(actions: seq<ActionId>, table: Table, i: nat, sequences: map<string, ActionId>)
    requires i < |actions| && Recorded(actions, table, i, sequences)
    requires table(actions[i]).Some? && table(actions[i]).value in sequences
    ensures var s := table(actions[i]).value;
            && Justified(actions, table, DuplicateSequence(s, sequences[s], actions[i]))
            && !Accepts(actions, table)
  {
    var s := table(actions[i]).value;
    var k :| 0 <= k < i && actions[k] == sequences[s] && table(actions[k]) == Some(s);
  }

  lemma NothingRecorded(actions: seq<ActionId>, table: Table)
    ensures Recorded(actions, table, 0, map[])
  {
  }

  /** The loop over the keys of the map; which of several offending leaves it reports is left open. */
  method FindShadowingLeaf(sequences: set<string>) returns (leaf: Option<string>)
    ensures leaf.Some? ==> leaf.value in sequences && exists s :: s in sequences && Shadows(leaf.value, s)
    ensures leaf.None? ==> forall a, b :: a in sequences && b in sequences ==> !Shadows(a, b)
  {
    var rest := sequences;
    while rest != {}
      invariant rest <= sequences
      invariant forall a, b :: a in sequences && a !in rest && b in sequences ==> !Shadows(a, b)
      decreases rest
    {
      var sequence :| sequence in rest;
      if |sequence| == 1 && exists s :: s in sequences && ByteLength(s) == 2 && sequence <= s {
        return Some(sequence);
      }
      rest := rest - {sequence};
    }
    return None;
  }

  lemma RecordedAll(actions: seq<ActionId>, table: Table, sequences: map<string, ActionId>)
    requires Recorded(actions, table, |actions|, sequences)
    ensures AllUsable(actions, table) && Distinct(actions, table)
    ensures (exists a, b :: a in sequences && b in sequences && Shadows(a, b)) <==> !NoneShadowed(actions, table)
    ensures forall a, b :: a in sequences && b in sequences && Shadows(a, b) ==>
              Justified(actions, table, LeafIsPrefix(a))
  {
    hide Shadows;
    forall s | s in sequences
      ensures exists id :: id in actions && table(id) == Some(s)
    {
      var k :| 0 <= k < |actions| && actions[k] == sequences[s] && table(actions[k]) == Some(s);
    }
  }

  /** `validate_transient_sequences`. */
  method ValidateTransientSequences(actions: seq<ActionId>, table: Table) returns (result: Result<(), SequenceError>)
    ensures result.Ok? <==> Accepts(actions, table)
    ensures result.Err? ==> Justified(actions, table, result.error)
  {
    hide ByteLength, Shadows, IsReserved, Recorded;
    var sequences: map<string, ActionId> := map[];
    var i := 0;
    assert Recorded(actions, table, 0, map[]) by { NothingRecorded(actions, table); }
    while i < |actions|
      invariant i <= |actions| && Recorded(actions, table, i, sequences)
    {
      var id := actions[i];
      var found := table(id);
      if found.None? {
        return Err(NoSequence(id));
      }
      var sequence := found.value;
      if sequence == "" || |sequence| > 2 {
        return Err(InvalidDepth(id));
      }
      if IsReserved(sequence) {
        return Err(ReservedSequence(sequence));
      }
      if sequence in sequences {
        RecordedTwice(actions, table, i, sequences);
        return Err(DuplicateSequence(sequence, sequences[sequence], id));
      }
      RecordsOneMore(actions, table, i, sequences);
      sequences := sequences[sequence := id];
      i := i + 1;
    }
    var leaf := FindShadowingLeaf(sequences.Keys);
    RecordedAll(actions, table, sequences);
    if leaf.Some? {
      return Err(LeafIsPrefix(leaf.value));
    }
    return Ok(());
  }

  // ----- what acceptance means

  predicate IsAscii(s: string) {
    forall k :: 0 <= k < |s| ==> s[k] < '\U{80}'
  }

  predicate AllAscii(actions: seq<ActionId>, table: Table) {
    forall i :: 0 <= i < |actions| && table(actions[i]).Some? ==> IsAscii(table(actions[i]).value)
  }

  /** No sequence is a prefix of another, nor equal to another. */
  predicate PrefixFree(actions: seq<ActionId>, table: Table)
    requires AllUsable(actions, table)
  {
    forall i, j :: 0 <= i < |actions| && 0 <= j < |actions| && i != j ==>
      !(table(actions[i]).value <= table(actions[j]).value)
  }

  /** The one-key sequence is the first key of the two-key one. */
  predicate IsFirstKey(leaf: string, pair: string) {
    |leaf| == 1 && |pair| == 2 && leaf <= pair
  }

  /** Some sequence is a single key of two bytes. */
  predicate LoneTwoByteKey(actions: seq<ActionId>, table: Table)
    requires AllUsable(actions, table)
  {
    exists i :: 0 <= i < |actions|
             && |table(actions[i]).value| == 1 && ByteLength(table(actions[i]).value) == 2
  }

  /** Some one-key sequence is the first key of a pair that takes two bytes, that is, an ASCII pair. */
  predicate AsciiPairBehindALeaf(actions: seq<ActionId>, table: Table)
    requires AllUsable(actions, table)
  {
    exists i, j :: 0 <= i < |actions| && 0 <= j < |actions|
                && IsFirstKey(table(actions[i]).value, table(actions[j]).value)
                && ByteLength(table(actions[j]).value) == 2
  }

  /** Some one-key sequence is the first key of a pair that takes more than two bytes. */
  predicate WidePairBehindALeaf(actions: seq<ActionId>, table: Table)
    requires AllUsable(actions, table)
  {
    exists i, j :: 0 <= i < |actions| && 0 <= j < |actions|
                && IsFirstKey(table(actions[i]).value, table(actions[j]).value)
                && ByteLength(table(actions[j]).value) > 2
  }

  lemma ShadowsExactly(leaf: string, candidate: string)
    requires 1 <= |candidate| <= 2
    ensures Shadows(leaf, candidate) <==>
              || (|candidate| == 1 && leaf == candidate && ByteLength(candidate) == 2)
              || (IsFirstKey(leaf, candidate) && ByteLength(candidate) == 2)
    ensures |candidate| <= ByteLength(candidate)
  {
    if leaf <= candidate && |leaf| == |candidate| {
      assert leaf == candidate;
    }
  }

  /** Among usable, distinct sequences the validator refuses lone two-byte keys and ASCII pairs behind a leaf. */
  lemma NoneShadowedExactly(actions: seq<ActionId>, table: Table)
    requires AllUsable(actions, table)
    ensures NoneShadowed(actions, table) <==> !LoneTwoByteKey(actions, table) && !AsciiPairBehindALeaf(actions, table)
  {
    hide ByteLength, Shadows, IsFirstKey;
    forall i, j | 0 <= i < |actions| && 0 <= j < |actions|
      ensures Shadows(table(actions[i]).value, table(actions[j]).value) <==>
              || (|table(actions[j]).value| == 1 && table(actions[i]).value == table(actions[j]).value
                  && ByteLength(table(actions[j]).value) == 2)
              || (IsFirstKey(table(actions[i]).value, table(actions[j]).value)
                  && ByteLength(table(actions[j]).value) == 2)
    {
      ShadowsExactly(table(actions[i]).value, table(actions[j]).value);
    }
  }

  /** It should refuse every pair behind a leaf, wide ones too, and repeated sequences. */
  lemma PrefixFreeExactly(actions: seq<ActionId>, table: Table)
    requires AllUsable(actions, table)
    ensures PrefixFree(actions, table) <==>
              && Distinct(actions, table)
              && !AsciiPairBehindALeaf(actions, table) && !WidePairBehindALeaf(actions, table)
  {
    hide ByteLength;
    forall i, j | 0 <= i < |actions| && 0 <= j < |actions| && i != j
      ensures table(actions[i]).value <= table(actions[j]).value <==>
              table(actions[i]) == table(actions[j]) || IsFirstKey(table(actions[i]).value, table(actions[j]).value)
      ensures |table(actions[j]).value| <= ByteLength(table(actions[j]).value)
    {
      var a, b := table(actions[i]).value, table(actions[j]).value;
      ShadowsExactly(a, b);
      if a <= b && |a| == |b| {
        assert a == b;
      }
    }
  }

  /**
    When the validator's verdict on usable sequences is the right one: when two are equal, when an ASCII pair stands
    behind a leaf (both are refused, rightly), and otherwise exactly when a lone two-byte key, which it refuses
    wrongly, and a wide pair behind a leaf, which it misses, occur both or neither.
   */
  lemma JudgedRightlyExactly(actions: seq<ActionId>, table: Table)
    requires AllUsable(actions, table)
    ensures (Accepts(actions, table) <==> PrefixFree(actions, table)) <==>
              || !Distinct(actions, table)
              || AsciiPairBehindALeaf(actions, table)
              || (LoneTwoByteKey(actions, table) <==> WidePairBehindALeaf(actions, table))
  {
    hide LoneTwoByteKey, AsciiPairBehindALeaf, WidePairBehindALeaf, NoneShadowed, PrefixFree, Distinct;
    NoneShadowedExactly(actions, table);
    PrefixFreeExactly(actions, table);
  }

  /** For ASCII sequences the validator accepts exactly the usable prefix-free sets. */
  lemma AcceptsExactlyPrefixFree(actions: seq<ActionId>, table: Table)
    requires AllAscii(actions, table)
    ensures Accepts(actions, table) <==> AllUsable(actions, table) && PrefixFree(actions, table)
  {
    hide PrefixFree, Distinct, NoneShadowed;
    if AllUsable(actions, table) {
      forall i | 0 <= i < |actions|
        ensures ByteLength(table(actions[i]).value) == |table(actions[i]).value|
      {
        AsciiText(table(actions[i]).value);
      }
      JudgedRightlyExactly(actions, table);
    }
  }

  lemma KeyLength(key: char)
    ensures ByteLength([key]) == |Encode(key)|
  {
    assert EncodeAll([key]) == Encode(key) + EncodeAll([key][1..]);
  }

  lemma PairLength(first: char, second: char)
    ensures ByteLength([first, second]) == |Encode(first)| + |Encode(second)|
  {
    KeyLength(first);
    KeyLength(second);
    EncodeAppends([first], [second]);
    assert [first] + [second] == [first, second];
  }

  /** It is wrong one way: a lone two-byte key is refused as a prefix of itself. */
  lemma LoneWideKeyIsRefused(key: char)
    requires 0x80 <= key as int < 0x800
    ensures var table: Table := _ => Some([key]);
            AllUsable([0], table) && PrefixFree([0], table) && !Accepts([0], table)
  {
    hide ByteLength;
    var table: Table := _ => Some([key]);
    var actions := [0];
    KeyLength(key);
    assert |table(actions[0]).value| == 1;
    assert LoneTwoByteKey(actions, table);
    NoneShadowedExactly(actions, table);
  }

  lemma LeafAndWidePair(actions: seq<ActionId>, table: Table, leaf: string, pair: string)
    requires |actions| == 2 && table(actions[0]) == Some(leaf) && table(actions[1]) == Some(pair)
    requires IsUsable(Some(leaf)) && IsUsable(Some(pair)) && IsFirstKey(leaf, pair)
    requires ByteLength(leaf) == 1 && ByteLength(pair) == 3
    ensures AllUsable(actions, table) && !PrefixFree(actions, table) && Accepts(actions, table)
  {
    hide ByteLength, IsReserved;
    assert forall i :: 0 <= i < 2 ==> table(actions[i]) == Some(if i == 0 then leaf else pair);
    assert AllUsable(actions, table) && WidePairBehindALeaf(actions, table);
    hide NoneShadowed, PrefixFree;
    NoneShadowedExactly(actions, table);
    PrefixFreeExactly(actions, table);
  }

  /** And the other way: a two-key sequence with such a key goes unnoticed behind its first key. */
  lemma WidePairIsMissed(first: char, second: char)
    requires first as int < 0x80 <= second as int < 0x800 && !IsReserved([first])
    ensures var table: Table := (id: ActionId) => Some(if id == 0 then [first] else [first, second]);
            AllUsable([0, 1], table) && !PrefixFree([0, 1], table) && Accepts([0, 1], table)
  {
    hide ByteLength, AllUsable, PrefixFree, Accepts;
    var leaf, pair := [first], [first, second];
    KeyLength(first);
    PairLength(first, second);
    assert !IsReserved(pair) && IsFirstKey(leaf, pair);
    LeafAndWidePair([0, 1], (id: ActionId) => Some(if id == 0 then [first] else [first, second]), leaf, pair);
  }

  // ----- unique decoding

  predicate Knows(actions: seq<ActionId>, chosen: seq<ActionId>) {
    forall k :: 0 <= k < |chosen| ==> chosen[k] in actions
  }

  /** The keys that choose these actions, one after another. */
  function Spell(table: Table, chosen: seq<ActionId>): string
    requires forall k :: 0 <= k < |chosen| ==> table(chosen[k]).Some?
  {
    if chosen == [] then "" else table(chosen[0]).value + Spell(table, chosen[1..])
  }

  lemma PrefixesNameOneAction(actions: seq<ActionId>, table: Table, a: ActionId, b: ActionId)
    requires AllUsable(actions, table) && PrefixFree(actions, table) && a in actions && b in actions
    requires table(a).value <= table(b).value || table(b).value <= table(a).value
    ensures a == b
  {
    var i :| 0 <= i < |actions| && actions[i] == a;
    var j :| 0 <= j < |actions| && actions[j] == b;
  }

  /** A stream of keys splits into a validated menu's actions in at most one way. */
  lemma {:induction false} KeysSplitOneWay(actions: seq<ActionId>, table: Table, xs: seq<ActionId>, ys: seq<ActionId>)
    requires AllUsable(actions, table) && PrefixFree(actions, table)
    requires Knows(actions, xs) && Knows(actions, ys)
    requires Spell(table, xs) == Spell(table, ys)
    ensures xs == ys
    decreases |xs|
  {
    if xs != [] && ys != [] {
      var a, b := table(xs[0]).value, table(ys[0]).value;
      var keys := Spell(table, xs);
      assert a == keys[..|a|] && b == keys[..|b|];
      assert a <= b || b <= a by {
        assert |a| <= |b| ==> a == b[..|a|];
        assert |b| <= |a| ==> b == a[..|b|];
      }
      PrefixesNameOneAction(actions, table, xs[0], ys[0]);
      assert Spell(table, xs[1..]) == keys[|a|..] == Spell(table, ys[1..]);
      KeysSplitOneWay(actions, table, xs[1..], ys[1..]);
      assert xs == [xs[0]] + xs[1..] && ys == [ys[0]] + ys[1..];
    }
  }

  // ----- the menu itself

  /** A character key, and whether its event carries a modifier, as Shift with a capital. */
  datatype Press = Press(key: char, modified: bool)

  /** Which typed characters arrive with a modifier. */
  type Terminal = char -> bool

  /**
    What a key does in an open menu; `Waits` keeps it as the first of two, `Refuses` and `Ignored` leave the menu as
    it is.
   */
  datatype Response =
    | OpensHelp
    | Ignored
    | Dispatches(id: ActionId)
    | Refuses(id: ActionId)
    | Waits(prefix: char)
    | IsUnknown

  /** An action menu, and which of its actions can be taken now. */
  datatype Menu = Menu(actions: seq<ActionId>, table: Table, available: ActionId -> bool)

  /** The first action with this sequence. */
  function Find(actions: seq<ActionId>, table: Table, sequence: string): (found: Option<ActionId>)
    ensures found.Some? ==> found.value in actions && table(found.value) == Some(sequence)
    ensures found.None? ==> forall id :: id in actions ==> table(id) != Some(sequence)
  {
    if actions == [] then None
    else if table(actions[0]) == Some(sequence) then Some(actions[0])
    else Find(actions[1..], table, sequence)
  }

  /** Some action's sequence has two bytes and starts with this key. */
  predicate StartsAPair(menu: Menu, key: char) {
    exists id :: id in menu.actions && menu.table(id).Some?
              && ByteLength(menu.table(id).value) == 2 && [key] <= menu.table(id).value
  }

  function Typed(prefix: Option<char>, key: char): string {
    if prefix.Some? then [prefix.value, key] else [key]
  }

  /** `handle_transient_key` for a character in an action menu. */
  function HandleKey(menu: Menu, prefix: Option<char>, press: Press): Response {
    var found := Find(menu.actions, menu.table, Typed(prefix, press.key));
    if press.key == '?' && !press.modified then OpensHelp
    else if press.modified then Ignored
    else if found.Some? then (if menu.available(found.value) then Dispatches(found.value) else Refuses(found.value))
    else if prefix.None? && StartsAPair(menu, press.key) then Waits(press.key)
    else IsUnknown
  }

  /** The actions a stream of keys dispatches; the menu is opened again after each, and help ends the stream. */
  function Dispatched(menu: Menu, prefix: Option<char>, presses: seq<Press>): seq<ActionId>
    decreases |presses|
  {
    if presses == [] then []
    else
      match HandleKey(menu, prefix, presses[0])
      case OpensHelp => []
      case Ignored => Dispatched(menu, prefix, presses[1..])
      case Dispatches(id) => [id] + Dispatched(menu, None, presses[1..])
      case Refuses(_) => Dispatched(menu, prefix, presses[1..])
      case Waits(first) => Dispatched(menu, Some(first), presses[1..])
      case IsUnknown => Dispatched(menu, None, presses[1..])
  }

  /** The key events of typed characters. */
  function Arriving(terminal: Terminal, keys: string): (presses: seq<Press>)
    ensures |presses| == |keys|
    ensures forall k :: 0 <= k < |keys| ==> presses[k] == Press(keys[k], terminal(keys[k]))
  {
    seq(|keys|, k requires 0 <= k < |keys| => Press(keys[k], terminal(keys[k])))
  }

  predicate ArrivesPlain(terminal: Terminal, keys: string) {
    forall k :: 0 <= k < |keys| ==> !terminal(keys[k])
  }

  function Plain(presses: seq<Press>): seq<Press> {
    if presses == [] then []
    else if presses[0].modified then Plain(presses[1..])
    else [presses[0]] + Plain(presses[1..])
  }

  /** Keys with a modifier might as well not have been pressed, even between the two of a pair. */
  lemma {:induction false} ModifiedKeysDoNothing(menu: Menu, prefix: Option<char>, presses: seq<Press>)
    ensures Dispatched(menu, prefix, presses) == Dispatched(menu, prefix, Plain(presses))
    decreases |presses|
  {
    hide StartsAPair, Find, Typed;
    if presses != [] {
      var rest := presses[1..];
      if presses[0].modified {
        ModifiedKeysDoNothing(menu, prefix, rest);
      } else {
        assert Plain(presses)[0] == presses[0] && Plain(presses)[1..] == Plain(rest);
        match HandleKey(menu, prefix, presses[0])
        case OpensHelp =>
        case Dispatches(_) => ModifiedKeysDoNothing(menu, None, rest);
        case Waits(first) => ModifiedKeysDoNothing(menu, Some(first), rest);
        case IsUnknown => ModifiedKeysDoNothing(menu, None, rest);
        case _ => ModifiedKeysDoNothing(menu, prefix, rest);
      }
    }
  }

  /**
    What the keys that dispatch nothing leave: help ends the stream, an unavailable action keeps the first of two
    keys, and a sequence that is unknown, and no start of a pair, drops it.
   */
  lemma IdleKeysLeave(menu: Menu, prefix: Option<char>, key: char, rest: seq<Press>)
    ensures var dispatched := Dispatched(menu, prefix, [Press(key, false)] + rest);
            if key == '?' then dispatched == []
            else
              var known := exists id :: id in menu.actions && menu.table(id) == Some(Typed(prefix, key));
              && (known && (forall id :: id in menu.actions && menu.table(id) == Some(Typed(prefix, key)) ==>
                              !menu.available(id)) ==>
                    dispatched == Dispatched(menu, prefix, rest))
              && (!known && (prefix.Some? || !StartsAPair(menu, key)) ==> dispatched == Dispatched(menu, None, rest))
              && (!known && prefix.None? && StartsAPair(menu, key) ==> dispatched == Dispatched(menu, Some(key), rest))
  {
    hide StartsAPair, Find;
    var presses := [Press(key, false)] + rest;
    assert presses[0] == Press(key, false) && presses[1..] == rest;
  }

  lemma SequencesNameOneAction(menu: Menu, id: ActionId)
    requires Accepts(menu.actions, menu.table) && id in menu.actions
    ensures Find(menu.actions, menu.table, menu.table(id).value) == Some(id)
  {
    hide Find;
    var found := Find(menu.actions, menu.table, menu.table(id).value);
    var i :| 0 <= i < |menu.actions| && menu.actions[i] == id;
    var j :| 0 <= j < |menu.actions| && menu.actions[j] == found.value;
    assert menu.table(menu.actions[i]) == menu.table(menu.actions[j]);
  }

  /** The menu waits for a second key after the first one of this sequence. */
  predicate FirstKeyWaits(menu: Menu, sequence: string)
    requires |sequence| == 2
  {
    Find(menu.actions, menu.table, [sequence[0]]).None? && StartsAPair(menu, sequence[0])
  }

  predicate CanReach(menu: Menu, terminal: Terminal, id: ActionId)
    requires menu.table(id).Some? && |menu.table(id).value| >= 1
  {
    var sequence := menu.table(id).value;
    && '?' !in sequence && ArrivesPlain(terminal, sequence) && menu.available(id)
    && (|sequence| == 2 ==> FirstKeyWaits(menu, sequence))
  }

  lemma SequenceDispatches(menu: Menu, terminal: Terminal, id: ActionId, rest: seq<Press>)
    requires Accepts(menu.actions, menu.table) && id in menu.actions && CanReach(menu, terminal, id)
    ensures Dispatched(menu, None, Arriving(terminal, menu.table(id).value) + rest) ==
            [id] + Dispatched(menu, None, rest)
  {
    hide Find, StartsAPair;
    var sequence := menu.table(id).value;
    var presses := Arriving(terminal, sequence) + rest;
    SequencesNameOneAction(menu, id);
    assert presses[0] == Press(sequence[0], false);
    if |sequence| == 1 {
      assert sequence == [sequence[0]];
      assert presses[1..] == rest;
    } else {
      assert sequence == [sequence[0], sequence[1]];
      assert presses[1..][0] == Press(sequence[1], false) && presses[1..][1..] == rest;
      assert HandleKey(menu, None, presses[0]) == Waits(sequence[0]);
      assert HandleKey(menu, Some(sequence[0]), presses[1]) == Dispatches(id);
    }
  }

  /** The last key of a stream dispatches its own action or nothing. */
  lemma LastKeyDispatches(menu: Menu, prefix: Option<char>, press: Press)
    ensures var response := HandleKey(menu, prefix, press);
            Dispatched(menu, prefix, [press]) == if response.Dispatches? then [response.id] else []
  {
    hide HandleKey;
    var presses := [press];
    assert presses[0] == press && presses[1..] == [];
  }

  lemma TwoKeysDispatch(menu: Menu, first: Press, second: Press)
    ensures var response := HandleKey(menu, None, first);
            Dispatched(menu, None, [first, second]) ==
              if response.OpensHelp? then []
              else if response.Dispatches? then [response.id] + Dispatched(menu, None, [second])
              else if response.Waits? then Dispatched(menu, Some(response.prefix), [second])
              else Dispatched(menu, None, [second])
  {
    hide HandleKey;
    var presses := [first, second];
    assert presses[0] == first && presses[1..] == [second];
  }

  /** Without the prefix it needs, a two-key sequence is not dispatched by its second key. */
  lemma SecondKeyAloneMisses(menu: Menu, id: ActionId, press: Press)
    requires menu.table(id).Some? && |menu.table(id).value| == 2
    ensures Dispatched(menu, None, [press]) != [id]
  {
    hide StartsAPair, Find;
    LastKeyDispatches(menu, None, press);
  }

  /** Nor is it dispatched by its two keys when the menu does not wait after the first of them. */
  lemma UnwaitedPairMisses(menu: Menu, id: ActionId, first: Press, second: Press)
    requires menu.table(id).Some? && |menu.table(id).value| == 2
    requires !HandleKey(menu, None, first).Waits?
    ensures Dispatched(menu, None, [first, second]) != [id]
  {
    hide StartsAPair, Find;
    SecondKeyAloneMisses(menu, id, second);
    TwoKeysDispatch(menu, first, second);
    var response := HandleKey(menu, None, first);
    if response.Dispatches? {
      assert ([response.id] + Dispatched(menu, None, [second]))[0] == response.id != id;
    }
  }

  /**
    Which actions of an accepted menu can be reached: those that are available, whose keys arrive without modifiers
    and are not the help key, and, when there are two, the first of which the menu waits after.
   */
  lemma ReachableExactly(menu: Menu, terminal: Terminal, id: ActionId)
    requires Accepts(menu.actions, menu.table) && id in menu.actions
    ensures Dispatched(menu, None, Arriving(terminal, menu.table(id).value)) == [id] <==> CanReach(menu, terminal, id)
  {
    hide Find, StartsAPair;
    var sequence := menu.table(id).value;
    var presses := Arriving(terminal, sequence);
    SequencesNameOneAction(menu, id);
    if CanReach(menu, terminal, id) {
      SequenceDispatches(menu, terminal, id, []);
      assert presses + [] == presses;
    } else if |sequence| == 1 {
      assert sequence == [sequence[0]] && presses == [presses[0]];
      LastKeyDispatches(menu, None, presses[0]);
    } else {
      assert sequence == [sequence[0], sequence[1]] && presses == [presses[0], presses[1]];
      if HandleKey(menu, None, presses[0]).Waits? {
        TwoKeysDispatch(menu, presses[0], presses[1]);
        LastKeyDispatches(menu, Some(sequence[0]), presses[1]);
      } else {
        UnwaitedPairMisses(menu, id, presses[0], presses[1]);
      }
    }
  }

  /** In an ASCII menu the first key of every pair is waited after. */
  lemma AsciiPairsAreWaitedFor(menu: Menu, id: ActionId)
    requires AllAscii(menu.actions, menu.table) && Accepts(menu.actions, menu.table) && id in menu.actions
    requires |menu.table(id).value| == 2
    ensures FirstKeyWaits(menu, menu.table(id).value)
  {
    var sequence := menu.table(id).value;
    AcceptsExactlyPrefixFree(menu.actions, menu.table);
    hide EncodeAll, Accepts, Find;
    var i :| 0 <= i < |menu.actions| && menu.actions[i] == id;
    AsciiText(sequence);
    assert [sequence[0]] <= sequence;
    var leaf := Find(menu.actions, menu.table, [sequence[0]]);
    if leaf.Some? {
      PrefixesNameOneAction(menu.actions, menu.table, leaf.value, id);
    }
  }

  /** Nothing but its keys and the terminal stands in the way of an available action of an ASCII menu. */
  predicate IsTypable(menu: Menu, terminal: Terminal, id: ActionId)
    requires menu.table(id).Some?
  {
    '?' !in menu.table(id).value && ArrivesPlain(terminal, menu.table(id).value) && menu.available(id)
  }

  lemma ArrivingAppends(terminal: Terminal, a: string, b: string)
    ensures Arriving(terminal, a + b) == Arriving(terminal, a) + Arriving(terminal, b)
  {
  }

  lemma TypableDispatches(menu: Menu, terminal: Terminal, id: ActionId, rest: seq<Press>)
    requires AllAscii(menu.actions, menu.table) && Accepts(menu.actions, menu.table) && id in menu.actions
    requires IsTypable(menu, terminal, id)
    ensures Dispatched(menu, None, Arriving(terminal, menu.table(id).value) + rest) ==
            [id] + Dispatched(menu, None, rest)
  {
    hide FirstKeyWaits, Dispatched, ArrivesPlain;
    if |menu.table(id).value| == 2 {
      AsciiPairsAreWaitedFor(menu, id);
    }
    SequenceDispatches(menu, terminal, id, rest);
  }

  /** Whatever typable actions are spelt in an accepted ASCII menu get dispatched. */
  lemma {:induction false} MenuReadsWhatIsSpelt(menu: Menu, terminal: Terminal, chosen: seq<ActionId>)
    requires AllAscii(menu.actions, menu.table) && Accepts(menu.actions, menu.table) && Knows(menu.actions, chosen)
    requires forall k :: 0 <= k < |chosen| ==> IsTypable(menu, terminal, chosen[k])
    ensures Dispatched(menu, None, Arriving(terminal, Spell(menu.table, chosen))) == chosen
    decreases |chosen|
  {
    hide HandleKey, AllAscii, Arriving;
    if chosen == [] {
      assert Arriving(terminal, Spell(menu.table, chosen)) == [];
    } else {
      hide Dispatched, IsTypable;
      var rest := chosen[1..];
      MenuReadsWhatIsSpelt(menu, terminal, rest);
      TypableDispatches(menu, terminal, chosen[0], Arriving(terminal, Spell(menu.table, rest)));
      ArrivingAppends(terminal, menu.table(chosen[0]).value, Spell(menu.table, rest));
    }
  }

  /** In an accepted ASCII menu the actions that can be reached are the typable ones. */
  lemma AsciiReachableExactly(menu: Menu, terminal: Terminal, id: ActionId)
    requires AllAscii(menu.actions, menu.table) && Accepts(menu.actions, menu.table) && id in menu.actions
    ensures Dispatched(menu, None, Arriving(terminal, menu.table(id).value)) == [id] <==> IsTypable(menu, terminal, id)
  {
    hide FirstKeyWaits, Dispatched;
    ReachableExactly(menu, terminal, id);
    if |menu.table(id).value| == 2 {
      AsciiPairsAreWaitedFor(menu, id);
    }
  }

  /** The validator does accept a pair with the help key in it, and its action cannot be reached. */
  lemma HelpKeyHidesAPair(terminal: Terminal, key: char)
    requires key < '\U{80}' && key != '?'
    ensures var table: Table := _ => Some([key, '?']);
            && AllAscii([0], table) && Accepts([0], table)
            && Dispatched(Menu([0], table, _ => true), None, Arriving(terminal, table(0).value)) != [0]
  {
    var table: Table := _ => Some([key, '?']);
    var actions := [0];
    hide ByteLength, Dispatched;
    assert !IsReserved([key, '?']);
    assert AllUsable(actions, table) && PrefixFree(actions, table);
    AcceptsExactlyPrefixFree(actions, table);
    ReachableExactly(Menu(actions, table, _ => true), terminal, 0);
    assert [key, '?'][1] == '?';
  }

  /** It accepts a capital too, which does nothing where capitals arrive with Shift. */
  lemma CapitalIsIgnored(terminal: Terminal, key: char)
    requires 'A' <= key <= 'Z' && terminal(key)
    ensures var table: Table := _ => Some([key]);
            && AllAscii([0], table) && Accepts([0], table)
            && Dispatched(Menu([0], table, _ => true), None, Arriving(terminal, table(0).value)) == []
  {
    var table: Table := _ => Some([key]);
    var actions := [0];
    assert !IsReserved([key]);
    assert AllUsable(actions, table) && PrefixFree(actions, table);
    AcceptsExactlyPrefixFree(actions, table);
    hide ByteLength;
    assert Arriving(terminal, [key]) == [Press(key, true)];
    LastKeyDispatches(Menu(actions, table, _ => true), None, Press(key, true));
  }

  /** Beyond ASCII an accepted pair may also be out of reach because the menu never waits for its second key. */
  lemma WidePairIsNotWaitedFor(terminal: Terminal, first: char, second: char)
    requires first as int < 0x80 <= second as int < 0x800
    ensures var table: Table := _ => Some([first, second]);
            && Accepts([0], table)
            && Dispatched(Menu([0], table, _ => true), None, Arriving(terminal, table(0).value)) != [0]
  {
    hide ByteLength, Dispatched;
    var table: Table := _ => Some([first, second]);
    var actions := [0];
    PairLength(first, second);
    assert !IsReserved([first, second]);
    NoneShadowedExactly(actions, table);
    assert !StartsAPair(Menu(actions, table, _ => true), first);
    ReachableExactly(Menu(actions, table, _ => true), terminal, 0);
  }
}
