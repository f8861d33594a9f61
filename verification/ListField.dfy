/**
  Form fields that hold a comma-separated list, and the editor that opens one (src/app.rs).
 */
module ListField {
  import opened Wrappers
  import opened Indices
  import opened Whitespace
  import opened Utf8

  // ----- a list as one value

  /** `str::split(',')`: one piece more than there are commas. */
  function Split(s: string): (pieces: seq<string>)
    ensures pieces != []
  {
    if s == "" then [""]
    else
      var rest := Split(s[1..]);
      if s[0] == ',' then [""] + rest else rest[0 := [s[0]] + rest[0]]
  }

  /** The pieces trimmed, without the empty ones. */
  function Cleaned(pieces: seq<string>): seq<string> {
    if pieces == [] then []
    else if Trim(pieces[0]) == "" then Cleaned(pieces[1..])
    else [Trim(pieces[0])] + Cleaned(pieces[1..])
  }

  /** `FormField::entries`. */
  function Entries(value: string): seq<string> {
    Cleaned(Split(value))
  }

  function Join(pieces: seq<string>): string {
    if pieces == [] then ""
    else if |pieces| == 1 then pieces[0]
    else pieces[0] + "," + Join(pieces[1..])
  }

  /** `ListEditor::joined`. */
  function Joined(entries: seq<string>): string {
    Join(Cleaned(entries))
  }

  predicate CommaFree(s: string) {
    forall k :: 0 <= k < |s| ==> s[k] != ','
  }

  predicate AllCommaFree(entries: seq<string>) {
    forall k :: 0 <= k < |entries| ==> CommaFree(entries[k])
  }

  function Concat(lists: seq<seq<string>>): seq<string> {
    if lists == [] then [] else lists[0] + Concat(lists[1..])
  }

  lemma {:induction false} SplitAtComma(a: string, b: string)
    ensures Split(a + "," + b) == Split(a) + Split(b)
    decreases |a|
  {
    if a == "" {
      assert a + "," + b == "," + b;
      assert ("," + b)[1..] == b;
    } else {
      SplitAtComma(a[1..], b);
      var s, x, y := a + "," + b, Split(a[1..]), Split(b);
      assert s[0] == a[0] && s[1..] == a[1..] + "," + b;
      if a[0] == ',' {
        assert [""] + (x + y) == ([""] + x) + y;
      } else {
        assert (x + y)[0 := [a[0]] + x[0]] == x[0 := [a[0]] + x[0]] + y;
      }
    }
  }

  lemma {:induction false} CleanedAppends(a: seq<string>, b: seq<string>)
    ensures Cleaned(a + b) == Cleaned(a) + Cleaned(b)
    decreases |a|
  {
    hide Trim;
    if a == [] {
      assert a + b == b;
    } else {
      var rest := a[1..];
      assert (a + b)[0] == a[0] && (a + b)[1..] == rest + b;
      CleanedAppends(rest, b);
      AppendAssociates([Trim(a[0])], Cleaned(rest), Cleaned(b));
    }
  }

  lemma {:induction false} SplitWithoutComma(s: string)
    requires CommaFree(s)
    ensures Split(s) == [s]
    decreases |s|
  {
    if s != "" {
      SplitWithoutComma(s[1..]);
      assert [s[0]] + s[1..] == s;
    }
  }

  lemma {:induction false} PiecesAreCommaFree(s: string)
    ensures AllCommaFree(Split(s))
    decreases |s|
  {
    if s != "" {
      PiecesAreCommaFree(s[1..]);
    }
  }

  lemma TrimmedStaysSame(t: string)
    requires t == "" || (!IsWhitespace(t[0]) && !IsWhitespace(t[|t| - 1]))
    ensures Trim(t) == t
  {
    hide IsWhitespace;
  }

  lemma WhiteIsCommaFree(s: string)
    requires AllWhite(s)
    ensures CommaFree(s)
  {
    assert !IsWhitespace(',');
  }

  lemma CommaFreeParts(a: string, b: string)
    ensures CommaFree(a + b) <==> CommaFree(a) && CommaFree(b)
  {
    assert forall k :: 0 <= k < |a| ==> (a + b)[k] == a[k];
    assert forall k :: 0 <= k < |b| ==> b[k] == (a + b)[|a| + k];
  }

  lemma TrimIsTrimmed(s: string)
    ensures Trim(Trim(s)) == Trim(s)
    ensures CommaFree(Trim(s)) <==> CommaFree(s)
  {
    hide TrimEnd, TrimStart, IsWhitespace, CommaFree;
    var u := TrimStart(s);
    var t := TrimEnd(u);
    TrimmedStaysSame(t);
    WhiteIsCommaFree(s[..|s| - |u|]);
    WhiteIsCommaFree(u[|t|..]);
    CommaFreeParts(s[..|s| - |u|], u);
    CommaFreeParts(t, u[|t|..]);
    assert s == s[..|s| - |u|] + u && u == t + u[|t|..];
  }

  lemma {:induction false} CleanedIsClean(pieces: seq<string>)
    ensures Cleaned(Cleaned(pieces)) == Cleaned(pieces)
    ensures AllCommaFree(pieces) ==> AllCommaFree(Cleaned(pieces))
    ensures AllCommaFree(Cleaned(pieces)) ==> AllCommaFree(pieces)
    decreases |pieces|
  {
    hide Trim;
    if pieces != [] {
      var first, rest := pieces[0], Cleaned(pieces[1..]);
      CleanedIsClean(pieces[1..]);
      TrimIsTrimmed(first);
      if Trim(first) == "" {
        assert Cleaned(pieces) == rest;
        if AllCommaFree(rest) { assert CommaFree(first); }
      } else {
        assert Cleaned(pieces) == [Trim(first)] + rest;
        assert ([Trim(first)] + rest)[1..] == rest;
        if AllCommaFree(Cleaned(pieces)) {
          assert CommaFree(Cleaned(pieces)[0]);
          assert forall k :: 0 <= k < |rest| ==> rest[k] == Cleaned(pieces)[k + 1];
        }
      }
      assert pieces == [first] + pieces[1..];
    }
  }

  lemma BlankHasNoEntries(s: string)
    requires s == ""
    ensures Entries(s) == []
  {
    hide IsWhitespace;
    assert Split(s) == [s] && Trim(s) == "";
  }

  /** A joined list reads back as the entries of each of its elements, commas in them or not. */
  lemma {:induction false} JoinReadsBack(entries: seq<string>)
    ensures Entries(Join(entries)) == Concat(seq(|entries|, k requires 0 <= k < |entries| => Entries(entries[k])))
    decreases |entries|
  {
    hide Trim;
    var lists := seq(|entries|, k requires 0 <= k < |entries| => Entries(entries[k]));
    if entries == [] {
      BlankHasNoEntries(Join(entries));
    } else {
      var rest := entries[1..];
      JoinReadsBack(rest);
      assert lists[1..] == seq(|rest|, k requires 0 <= k < |rest| => Entries(rest[k]));
      if rest == [] {
        assert lists == [Entries(entries[0])];
        assert Concat(lists) == Entries(entries[0]) + [];
      } else {
        SplitAtComma(entries[0], Join(rest));
        CleanedAppends(Split(entries[0]), Split(Join(rest)));
      }
    }
  }

  lemma {:induction false} CommaFreeListReadsBack(entries: seq<string>)
    requires AllCommaFree(entries)
    ensures Concat(seq(|entries|, k requires 0 <= k < |entries| => Entries(entries[k]))) == Cleaned(entries)
    decreases |entries|
  {
    hide Trim, Split;
    var lists := seq(|entries|, k requires 0 <= k < |entries| => Entries(entries[k]));
    if entries != [] {
      hide Cleaned;
      var rest := entries[1..];
      CommaFreeListReadsBack(rest);
      assert lists[1..] == seq(|rest|, k requires 0 <= k < |rest| => Entries(rest[k]));
      SplitWithoutComma(entries[0]);
      CleanedAppends([entries[0]], rest);
      assert [entries[0]] + rest == entries;
    }
  }

  /** The entries of any value are trimmed, not empty, and free of commas. */
  lemma EntriesAreClean(value: string)
    ensures AllCommaFree(Entries(value)) && Cleaned(Entries(value)) == Entries(value)
  {
    hide Trim;
    PiecesAreCommaFree(value);
    CleanedIsClean(Split(value));
  }

  /** What a commit stores reads back as the trimmed non-empty list exactly when no entry holds a comma. */
  lemma CommittedListReadsBackExactly(entries: seq<string>)
    ensures Entries(Joined(entries)) == Cleaned(entries) <==> AllCommaFree(entries)
  {
    hide Trim, Cleaned, Split;
    CleanedIsClean(entries);
    if AllCommaFree(entries) {
      JoinReadsBack(Cleaned(entries));
      CommaFreeListReadsBack(Cleaned(entries));
    } else {
      EntriesAreClean(Joined(entries));
    }
  }

  /** Opening a list and committing it untouched keeps its entries, whatever the value was. */
  lemma UntouchedListKeepsItsEntries(value: string)
    ensures Entries(Joined(Entries(value))) == Entries(value)
  {
    hide Entries;
    EntriesAreClean(value);
    CommittedListReadsBackExactly(Entries(value));
  }

  // ----- the open list

  datatype ListState = ListState(entries: seq<string>, selected: nat)

  datatype ListEdit = Select(offset: int) | MoveEntry(offset: int) | Insert | Remove | Edit(change: string -> string)

  /** Where a move by `offset` puts the selected entry; past the end it stays. */
  function MoveTarget(l: ListState, offset: int): nat
    requires l.selected < |l.entries|
  {
    var target := l.selected + offset;
    if target < 0 then 0 else if target >= |l.entries| then l.selected else target
  }

  /** The selection names an entry, or is zero when there is none. */
  predicate InRange(l: ListState) {
    if l.entries == [] then l.selected == 0 else l.selected < |l.entries|
  }

  function Edited(l: ListState, edit: ListEdit): ListState
    requires InRange(l)
  {
    match edit
    case Select(offset) =>
      if l.entries == [] then l else l.(selected := Clamp(l.selected + offset, |l.entries|))
    case MoveEntry(offset) =>
      if l.entries == [] then l
      else
        var target := MoveTarget(l, offset);
        ListState(l.entries[l.selected := l.entries[target]][target := l.entries[l.selected]], target)
    case Insert =>
      var position := if l.entries == [] then 0 else l.selected + 1;
      ListState(l.entries[..position] + [""] + l.entries[position..], position)
    case Remove =>
      if l.entries == [] then l
      else
        var entries := l.entries[..l.selected] + l.entries[l.selected + 1..];
        ListState(entries, if entries == [] then 0 else Clamp(l.selected, |entries|))
    case Edit(change) =>
      if l.entries == [] then ListState([change("")], 0)
      else l.(entries := l.entries[l.selected := change(l.entries[l.selected])])
  }

  /** `move_bounded_index`. */
  function MoveBoundedIndex(current: nat, length: nat, offset: int): nat {
    if length == 0 then 0
    else
      var from := if current < length - 1 then current else length - 1;
      if offset < 0 then (if from < -offset then 0 else from + offset)
      else if from + offset < length - 1 then from + offset else length - 1
  }

  class ListEditor {
    var entries: seq<string>
    var selected: nat

    function State(): ListState
      reads this
    {
      ListState(entries, selected)
    }

    constructor (value: string)
      ensures State() == ListState(Entries(value), 0) && InRange(State())
    {
      hide Entries;
      entries, selected := Entries(value), 0;
    }

    method Select(offset: int)
      requires InRange(State())
      modifies this`selected
      ensures State() == Edited(old(State()), ListEdit.Select(offset)) && InRange(State())
    {
      if entries == [] {
        return;
      }
      selected := MoveBoundedIndex(selected, |entries|, offset);
    }

    method MoveEntry(offset: int)
      requires InRange(State())
      modifies this
      ensures State() == Edited(old(State()), ListEdit.MoveEntry(offset)) && InRange(State())
    {
      if entries == [] {
        return;
      }
      var target := if offset < 0 then (if selected < -offset then 0 else selected + offset) else selected + offset;
      if target >= |entries| || target == selected {
        return;
      }
      entries := entries[selected := entries[target]][target := entries[selected]];
      selected := target;
    }

    method Insert()
      requires InRange(State())
      modifies this
      ensures State() == Edited(old(State()), ListEdit.Insert) && InRange(State())
    {
      var position := if entries == [] then 0 else if selected + 1 < |entries| then selected + 1 else |entries|;
      entries := entries[..position] + [""] + entries[position..];
      selected := position;
    }

    method Remove()
      requires InRange(State())
      modifies this
      ensures State() == Edited(old(State()), ListEdit.Remove) && InRange(State())
    {
      if entries == [] {
        return;
      }
      var at := if selected < |entries| - 1 then selected else |entries| - 1;
      entries := entries[..at] + entries[at + 1..];
      var last := if |entries| == 0 then 0 else |entries| - 1;
      selected := if selected < last then selected else last;
    }

    method Edit(change: string -> string)
      requires InRange(State())
      modifies this
      ensures State() == Edited(old(State()), ListEdit.Edit(change)) && InRange(State())
    {
      if entries == [] {
        entries := entries + [""];
        selected := 0;
      }
      if selected < |entries| {
        entries := entries[selected := change(entries[selected])];
      }
    }

    method Apply(edit: ListEdit)
      requires InRange(State())
      modifies this
      ensures State() == Edited(old(State()), edit) && InRange(State())
    {
      match edit {
        case Select(offset) => Select(offset);
        case MoveEntry(offset) => MoveEntry(offset);
        case Insert => Insert();
        case Remove => Remove();
        case Edit(change) => Edit(change);
      }
    }
  }

  /** Typing changes the selected entry and no other; the first entry appears when there is none. */
  lemma EditingChangesTheSelected(l: ListState, change: string -> string)
    requires InRange(l)
    ensures var m := Edited(l, Edit(change));
            if l.entries == [] then m == ListState([change("")], 0)
            else
              && |m.entries| == |l.entries| && m.selected == l.selected
              && m.entries[l.selected] == change(l.entries[l.selected])
              && forall k :: 0 <= k < |l.entries| && k != l.selected ==> m.entries[k] == l.entries[k]
  {
  }

  /** A new entry is blank, selected, and stands after the selected one. */
  lemma InsertingAddsABlank(l: ListState)
    requires InRange(l)
    ensures var m := Edited(l, Insert);
            && |m.entries| == |l.entries| + 1
            && m.selected == (if l.entries == [] then 0 else l.selected + 1)
            && m.entries[m.selected] == ""
            && m.entries[..m.selected] == l.entries[..m.selected]
            && m.entries[m.selected + 1..] == l.entries[m.selected..]
  {
  }

  /** Removing takes the selected entry out, and selects the next one, or the last when it was the last. */
  lemma RemovingTakesTheSelected(l: ListState)
    requires InRange(l)
    ensures var m := Edited(l, Remove);
            if l.entries == [] then m == l
            else
              && |m.entries| == |l.entries| - 1
              && m.entries[..l.selected] == l.entries[..l.selected]
              && m.entries[l.selected..] == l.entries[l.selected + 1..]
              && (l.selected < |m.entries| ==> m.selected == l.selected)
              && (l.selected == |m.entries| > 0 ==> m.selected == l.selected - 1)
  {
  }

  /** The selection moves by the offset and stops at the ends; a moved entry stops at the start only. */
  lemma MovesByTheOffset(l: ListState, offset: int)
    requires InRange(l) && l.entries != []
    ensures var to := l.selected + offset;
            var n := |l.entries|;
            && Edited(l, Select(offset)) == l.(selected := if to < 0 then 0 else if to < n then to else n - 1)
            && Edited(l, MoveEntry(offset)).selected == (if to < 0 then 0 else if to < n then to else l.selected)
  {
  }

  /** Moving an entry only swaps it with another, the selection follows it, and moving back undoes it. */
  lemma MovesPermute(l: ListState, offset: int)
    requires InRange(l) && l.entries != []
    ensures var m := Edited(l, MoveEntry(offset));
            && InRange(m) && multiset(m.entries) == multiset(l.entries)
            && m.entries[m.selected] == l.entries[l.selected]
            && Edited(m, MoveEntry(l.selected - m.selected)) == l
  {
    var a: int, b: int := l.selected, MoveTarget(l, offset);
    var m := Edited(l, MoveEntry(offset));
    var entries := l.entries;
    assert m.entries == entries[a := entries[b]][b := entries[a]];
    assert MoveTarget(m, a - b) == a;
    assert m.entries[b := m.entries[a]][a := m.entries[b]] == entries;
  }

  /** Adding an entry and removing it leaves the others as they were. */
  lemma RemovingUndoesInserting(l: ListState)
    requires InRange(l)
    ensures Edited(Edited(l, Insert), Remove).entries == l.entries
  {
  }

  // ----- the form around it

  datatype FieldKind = TextField | ChoiceField | Toggle | SecretField | ListOfEntries

  datatype FormField = FormField(kind: FieldKind, value: string)

  /**
    A form: the fields, the selected row (one past the fields is the submit row), the open edit if any, and the
    secret, which is kept beside the fields.
   */
  datatype Form = Form(fields: seq<FormField>, selected: nat, cursor: nat,
                       draft: Option<string>, list: Option<ListState>, secret: Option<string>)

  /** Typed or pasted text goes to the end of a secret; Backspace takes its last scalar. */
  datatype SecretEdit = PushText(text: string) | PopScalar

  /** What an open edit does: to the open list, to the secret, or to the value of any other open field. */
  datatype FormEdit = OnList(edit: ListEdit) | OnSecret(change: SecretEdit) | OnValue(value: string, cursor: nat)

  predicate WellFormed(f: Form) {
    && f.selected <= |f.fields|
    && (f.list.Some? ==> f.draft.Some? && InRange(f.list.value))
    && (f.draft.Some? ==> f.selected < |f.fields|)
    && (f.draft.Some? ==> (f.list.Some? <==> f.fields[f.selected].kind.ListOfEntries?))
    && (f.draft.Some? && f.fields[f.selected].kind.SecretField? ==> f.secret.Some?)
  }

  function Begun(f: Form): Form {
    if f.selected >= |f.fields| then f
    else
      var field := f.fields[f.selected];
      f.(draft := Some(field.value), cursor := |EncodeAll(field.value)|,
         list := if field.kind.ListOfEntries? then Some(ListState(Entries(field.value), 0)) else None,
         secret := if field.kind.SecretField? then Some("") else f.secret)
  }

  function WithValue(f: Form, value: string): seq<FormField>
    requires f.selected < |f.fields|
  {
    f.fields[f.selected := f.fields[f.selected].(value := value)]
  }

  function EditedSecret(secret: string, change: SecretEdit): string {
    match change
    case PushText(text) => secret + text
    case PopScalar => if secret == "" then "" else secret[..|secret| - 1]
  }

  function EditedForm(f: Form, edit: FormEdit): (g: Form)
    requires WellFormed(f) && f.draft.Some?
    ensures WellFormed(g) && g.draft == f.draft && g.selected == f.selected
  {
    var isSecret := f.fields[f.selected].kind.SecretField?;
    match edit
    case OnList(change) => if f.list.Some? then f.(list := Some(Edited(f.list.value, change))) else f
    case OnSecret(change) => if isSecret then f.(secret := Some(EditedSecret(f.secret.value, change))) else f
    case OnValue(value, cursor) =>
      if f.list.Some? || isSecret then f else f.(fields := WithValue(f, value), cursor := cursor)
  }

  function EditedAll(f: Form, edits: seq<FormEdit>): (g: Form)
    requires WellFormed(f) && f.draft.Some?
    ensures WellFormed(g) && g.draft == f.draft && g.selected == f.selected
    decreases |edits|
  {
    if edits == [] then f else EditedAll(EditedForm(f, edits[0]), edits[1..])
  }

  function Committed(f: Form): Form {
    if f.list.Some? && f.selected < |f.fields|
    then f.(fields := WithValue(f, Joined(f.list.value.entries)), list := None, draft := None)
    else f.(list := None, draft := None)
  }

  function Abandoned(f: Form): Form {
    if f.draft.Some? && f.selected < |f.fields|
    then f.(fields := WithValue(f, f.draft.value), list := None, draft := None, cursor := 0)
    else f.(list := None, draft := None, cursor := 0)
  }

  class FormState {
    var fields: seq<FormField>
    var selected: nat
    var cursor: nat
    var draft: Option<string>
    var list: ListEditor?
    var secret: Option<string>

    function View(): Form
      reads this, list
    {
      Form(fields, selected, cursor, draft, if list == null then None else Some(list.State()), secret)
    }

    method BeginEdit()
      requires WellFormed(View())
      modifies this
      ensures View() == Begun(old(View())) && WellFormed(View())
      ensures list == null || fresh(list) || list == old(list)
    {
      hide Entries, EncodeAll;
      if selected >= |fields| {
        return;
      }
      var field := fields[selected];
      draft := Some(field.value);
      cursor := |EncodeAll(field.value)|;
      list := null;
      if field.kind.ListOfEntries? {
        list := new ListEditor(field.value);
      }
      if field.kind.SecretField? {
        secret := Some("");
      }
    }

    method EditList(edit: ListEdit)
      requires WellFormed(View()) && draft.Some?
      modifies this, list
      ensures View() == EditedForm(old(View()), OnList(edit)) && WellFormed(View())
      ensures list == old(list)
    {
      if list != null {
        list.Apply(edit);
      }
    }

    /** Text and Backspace, when no list is open. */
    method EditSecret(change: SecretEdit)
      requires WellFormed(View()) && draft.Some? && fields[selected].kind.SecretField?
      modifies this
      ensures View() == EditedForm(old(View()), OnSecret(change)) && WellFormed(View())
      ensures list == old(list)
    {
      if secret.Some? {
        match change {
          case PushText(text) => secret := Some(secret.value + text);
          case PopScalar =>
            if secret.value != "" {
              secret := Some(secret.value[..|secret.value| - 1]);
            }
        }
      }
    }

    method CommitEdit()
      requires WellFormed(View())
      modifies this
      ensures View() == Committed(old(View())) && WellFormed(View())
    {
      if list != null {
        var joined := Joined(list.entries);
        if selected < |fields| {
          fields := fields[selected := fields[selected].(value := joined)];
        }
        list := null;
      }
      draft := None;
    }

    method AbandonEdit()
      requires WellFormed(View())
      modifies this
      ensures View() == Abandoned(old(View())) && WellFormed(View())
    {
      list := null;
      if draft.Some? {
        if selected < |fields| {
          fields := fields[selected := fields[selected].(value := draft.value)];
        }
        draft := None;
      }
      cursor := 0;
    }
  }

  /** Typing puts text at the end of a secret, and Backspace takes the last scalar, if there is one. */
  lemma SecretEditsAtTheEnd(secret: string, text: string, c: char)
    ensures EditedSecret(secret, PushText(text)) == secret + text
    ensures EditedSecret(EditedSecret(secret, PushText([c])), PopScalar) == secret
    ensures EditedSecret("", PopScalar) == ""
  {
  }

  /** In a field that is neither a list nor secret, an edit sets value and cursor, and keeping it closes the edit. */
  lemma CommittingKeepsTheValue(f: Form, value: string, cursor: nat)
    requires WellFormed(f) && f.draft.None? && f.selected < |f.fields|
    requires f.fields[f.selected].kind in {TextField, ChoiceField, Toggle}
    ensures var g := Committed(EditedForm(Begun(f), OnValue(value, cursor)));
            && |g.fields| == |f.fields| && g.fields[f.selected] == f.fields[f.selected].(value := value)
            && (forall k :: 0 <= k < |f.fields| && k != f.selected ==> g.fields[k] == f.fields[k])
            && g == f.(fields := g.fields, cursor := cursor)
  {
    hide Entries;
  }

  /** Keeping the edit of a field that is no list only closes it. */
  lemma CommittingCloses(f: Form)
    requires WellFormed(f) && f.list.None?
    ensures Committed(f) == f.(draft := None)
  {
  }

  /** Giving up without an open edit leaves the form as it is, with the cursor at the start. */
  lemma AbandoningNothing(f: Form)
    requires WellFormed(f) && f.draft.None?
    ensures Abandoned(f) == f.(cursor := 0)
  {
  }

  /** An opened field has the cursor at its end and remembers its value; only a list field opens a list. */
  lemma OpeningAField(f: Form)
    requires WellFormed(f) && f.selected < |f.fields|
    ensures var g, field := Begun(f), f.fields[f.selected];
            && g.fields == f.fields && g.selected == f.selected && g.draft == Some(field.value)
            && (g.list.Some? <==> field.kind == ListOfEntries)
            && (g.list.Some? ==> g.list.value.entries == Entries(field.value) && g.list.value.selected == 0)
            && (field.kind == SecretField ==> g.secret == Some(""))
            && (field.kind != SecretField ==> g.secret == f.secret)
            && g.cursor == Offset(field.value, |field.value|)
  {
    hide Entries;
    OffsetEnds(f.fields[f.selected].value);
  }

  /** The secret after these edits of an open secret field. */
  function EditedSecretAll(secret: string, edits: seq<FormEdit>): string
    decreases |edits|
  {
    if edits == [] then secret
    else if edits[0].OnSecret? then EditedSecretAll(EditedSecret(secret, edits[0].change), edits[1..])
    else EditedSecretAll(secret, edits[1..])
  }

  /**
    Edits never touch other fields. In a list field they touch no field at all until the commit, and in a secret
    field none ever, only the secret, which no other field's edits touch.
   */
  lemma {:induction false} EditsStayInTheirField(f: Form, edits: seq<FormEdit>)
    requires WellFormed(f) && f.draft.Some?
    ensures var g := EditedAll(f, edits);
            && |g.fields| == |f.fields|
            && g.fields == WithValue(f, g.fields[g.selected].value)
            && (f.list.Some? ==> g.list.Some? && g.fields == f.fields)
            && (f.list.None? ==> g.list.None?)
            && (if f.fields[f.selected].kind.SecretField?
                then g.fields == f.fields && g.secret == Some(EditedSecretAll(f.secret.value, edits))
                else g.secret == f.secret)
    decreases |edits|
  {
    hide Edited, EditedSecret, Entries;
    if edits == [] {
      assert WithValue(f, f.fields[f.selected].value) == f.fields;
    } else {
      EditsStayInTheirField(EditedForm(f, edits[0]), edits[1..]);
    }
  }

  /** Abandoning an edit restores every field, whatever was edited; a secret field's secret is left as edited. */
  lemma AbandoningRestores(f: Form, edits: seq<FormEdit>)
    requires WellFormed(f) && f.draft.None? && f.selected < |f.fields|
    ensures var isSecret := f.fields[f.selected].kind.SecretField?;
            Abandoned(EditedAll(Begun(f), edits)) ==
            f.(cursor := 0, secret := if isSecret then Some(EditedSecretAll("", edits)) else f.secret)
  {
    hide Edited, Entries, EditedAll, EditedSecretAll;
    EditsStayInTheirField(Begun(f), edits);
    var g := EditedAll(Begun(f), edits);
    assert WithValue(f, f.fields[f.selected].value) == f.fields;
  }

  /** Opening a secret field, typing into it and giving up replaces the secret that had been entered. */
  lemma AbandonedSecretIsReplaced(f: Form, text: string)
    requires WellFormed(f) && f.draft.None? && f.selected < |f.fields| && f.fields[f.selected].kind.SecretField?
    ensures Abandoned(EditedAll(Begun(f), [OnSecret(PushText(text))])).secret == Some(text)
  {
    hide EditedAll, Abandoned;
    var edits := [OnSecret(PushText(text))];
    AbandoningRestores(f, edits);
    assert edits[1..] == [] && "" + text == text;
  }

  /** Abandoning any edit of the field restores the form. */
  ghost predicate AbandoningAlwaysRestores(f: Form)
    requires WellFormed(f) && f.draft.None? && f.selected < |f.fields|
  {
    forall edits :: Abandoned(EditedAll(Begun(f), edits)) == f.(cursor := 0)
  }

  /** That is so exactly for the fields that are not secret. */
  lemma AbandoningRestoresExactly(f: Form)
    requires WellFormed(f) && f.draft.None? && f.selected < |f.fields|
    ensures AbandoningAlwaysRestores(f) <==> !f.fields[f.selected].kind.SecretField?
  {
    hide EditedAll, Abandoned;
    forall edits
      ensures var isSecret := f.fields[f.selected].kind.SecretField?;
              Abandoned(EditedAll(Begun(f), edits)) ==
              f.(cursor := 0, secret := if isSecret then Some(EditedSecretAll("", edits)) else f.secret)
    {
      AbandoningRestores(f, edits);
    }
    if f.fields[f.selected].kind.SecretField? {
      AbandonedSecretIsReplaced(f, "x");
      AbandonedSecretIsReplaced(f, "y");
    }
  }

  lemma NoEdits(f: Form)
    requires WellFormed(f) && f.draft.Some?
    ensures EditedAll(f, []) == f
  {
  }

  /**
    Committing a list after any edits: the field's entries are the trimmed non-empty list, in order, exactly when no
    entry holds a comma; no other field changes, and without edits the entries are those the field had.
   */
  lemma CommittingStoresTheList(f: Form, edits: seq<FormEdit>)
    requires WellFormed(f) && f.draft.None? && f.selected < |f.fields| && f.fields[f.selected].kind.ListOfEntries?
    ensures var open := EditedAll(Begun(f), edits);
            var g := Committed(open);
            && open.list.Some? && InRange(open.list.value)
            && g.draft.None? && g.list.None? && |g.fields| == |f.fields|
            && (forall i :: 0 <= i < |f.fields| && i != f.selected ==> g.fields[i] == f.fields[i])
            && (Entries(g.fields[f.selected].value) == Cleaned(open.list.value.entries)
                <==> AllCommaFree(open.list.value.entries))
            && (edits == [] ==> Entries(g.fields[f.selected].value) == Entries(f.fields[f.selected].value))
  {
    hide Edited, Entries, EditedAll, Joined, Cleaned, AllCommaFree;
    EditsStayInTheirField(Begun(f), edits);
    var open := EditedAll(Begun(f), edits);
    CommittedListReadsBackExactly(open.list.value.entries);
    if edits == [] {
      NoEdits(Begun(f));
      UntouchedListKeepsItsEntries(f.fields[f.selected].value);
    }
  }
}
