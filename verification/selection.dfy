/** The note selector's state: the current mode and the ascending (aroha) and
    descending (avaroha) id lists, with the toggle, clear and submit rules. */
module Selection {
  import opened Notes
  import opened Sorting

  /** Which list the keyboard currently edits. */
  datatype Mode = Aroha | Avaroha

  /** The sort key of an id in a mode: its rank in aroha, the negated rank in
      avaroha, so that both lists are sorted by increasing key. An unknown id
      has rank -1, as `findIndex` reports. */
  function Key(mode: Mode, id: string): int {
    if mode == Aroha then Rank(id) else -Rank(id)
  }

  /** The sort key of the mode as a function value. */
  function KeyOf(mode: Mode): string -> int {
    id => Key(mode, id)
  }

  /** Strictly ordered for the mode: increasing rank in aroha, decreasing in
      avaroha. Such a list holds no id twice. */
  predicate Canonical(mode: Mode, s: seq<string>) {
    Strict(KeyOf(mode), s)
  }

  /** The list after `toggleNote(x)`: a present id is filtered out; an absent
      one is appended and the list re-sorted for the mode, which is the stable
      sort `Array.prototype.sort` performs with the comparator `indexA - indexB`
      (aroha) or `indexB - indexA` (avaroha). */
  function Toggle(mode: Mode, s: seq<string>, x: string): seq<string> {
    if x in s then Remove(s, x) else SortByKey(KeyOf(mode), s + [x])
  }

  /** A catalog id absent from a list differs in key from every element. */
  lemma KeyFresh(mode: Mode, s: seq<string>, x: string)
    requires IsCatalogId(x) && x !in s
    ensures forall i :: 0 <= i < |s| ==> KeyOf(mode)(s[i]) != KeyOf(mode)(x)
  {
    forall i | 0 <= i < |s|
      ensures KeyOf(mode)(s[i]) != KeyOf(mode)(x)
    {
      if Rank(s[i]) == Rank(x) {
        RankInjective(x, s[i]);
      }
    }
  }

  /** Toggling a present id removes exactly that id: no other id changes
      count, and on a canonical list the others keep their order. */
  lemma ToggleRemoves(mode: Mode, s: seq<string>, x: string)
    requires x in s
    ensures x !in Toggle(mode, s, x)
    ensures multiset(Toggle(mode, s, x)) == multiset(s)[x := 0]
    ensures Canonical(mode, s) ==>
      exists k :: 0 <= k < |s| && s[k] == x && Toggle(mode, s, x) == s[..k] + s[k + 1..]
  {
    if Canonical(mode, s) {
      var k :| 0 <= k < |s| && s[k] == x;
      StrictDistinct(KeyOf(mode), s);
      RemoveAt(s, k);
    }
  }

  /** Toggling an absent id adds it and leaves the list sorted for the mode;
      from a canonical list and a catalog id the result is canonical again. */
  lemma ToggleInserts(mode: Mode, s: seq<string>, x: string)
    requires x !in s
    ensures x in Toggle(mode, s, x)
    ensures multiset(Toggle(mode, s, x)) == multiset(s) + multiset{x}
    ensures Sorted(KeyOf(mode), Toggle(mode, s, x))
    ensures Canonical(mode, s) && IsCatalogId(x) ==> Canonical(mode, Toggle(mode, s, x))
  {
    assert x in multiset(s + [x]);
    if Canonical(mode, s) && IsCatalogId(x) {
      SortInsertsOne(KeyOf(mode), s, x);
      KeyFresh(mode, s, x);
      InsertStrict(KeyOf(mode), s, x);
    }
  }

  /** On a canonical list, a toggle by a catalog id keeps the list canonical
      and changes its length by exactly one. */
  lemma TogglePreservesCanonical(mode: Mode, s: seq<string>, x: string)
    requires Canonical(mode, s) && IsCatalogId(x)
    ensures Canonical(mode, Toggle(mode, s, x))
    ensures |Toggle(mode, s, x)| == if x in s then |s| - 1 else |s| + 1
  {
    if x in s {
      ToggleRemoves(mode, s, x);
      var k :| 0 <= k < |s| && s[k] == x && Toggle(mode, s, x) == s[..k] + s[k + 1..];
      StrictDelete(KeyOf(mode), s, k);
    } else {
      ToggleInserts(mode, s, x);
      SortInsertsOne(KeyOf(mode), s, x);
    }
  }

  /** Removing a present id and toggling it back restores a canonical list. */
  lemma ReAddRemoved(mode: Mode, s: seq<string>, k: int)
    requires Canonical(mode, s) && 0 <= k < |s|
    ensures Toggle(mode, Toggle(mode, s, s[k]), s[k]) == s
  {
    var key := KeyOf(mode);
    var x := s[k];
    StrictDistinct(key, s);
    RemoveAt(s, k);
    var t := s[..k] + s[k + 1..];
    assert Toggle(mode, s, x) == t;
    assert x !in t;
    assert Toggle(mode, t, x) == SortByKey(key, t + [x]);
    StrictDelete(key, s, k);
    SortInsertsOne(key, t, x);
    InsertDeleted(key, s, k);
  }

  /** Adding an absent id and toggling it again restores a canonical list. */
  lemma RemoveAdded(mode: Mode, s: seq<string>, x: string)
    requires Canonical(mode, s) && x !in s
    ensures Toggle(mode, Toggle(mode, s, x), x) == s
  {
    var key := KeyOf(mode);
    SortInsertsOne(key, s, x);
    RemoveInserted(key, s, x);
  }

  /** Toggling the same id twice restores a canonical list exactly. */
  lemma ToggleTwice(mode: Mode, s: seq<string>, x: string)
    requires Canonical(mode, s)
    ensures Toggle(mode, Toggle(mode, s, x), x) == s
  {
    if x in s {
      var k :| 0 <= k < |s| && s[k] == x;
      ReAddRemoved(mode, s, k);
    } else {
      RemoveAdded(mode, s, x);
    }
  }

  /** The selector's state: the mode and the two lists. */
  datatype Selector = Selector(mode: Mode, aroha: seq<string>, avaroha: seq<string>)

  /** The state on first render: aroha mode, both lists empty. */
  const Initial := Selector(Aroha, [], [])

  /** The list the keyboard edits in the current mode. */
  function CurrentNotes(st: Selector): seq<string> {
    if st.mode == Aroha then st.aroha else st.avaroha
  }

  /** The current mode's setter. */
  function SetNotes(st: Selector, notes: seq<string>): (r: Selector)
    ensures r.mode == st.mode && CurrentNotes(r) == notes
    ensures st.mode == Aroha ==> r.avaroha == st.avaroha
    ensures st.mode == Avaroha ==> r.aroha == st.aroha
  {
    if st.mode == Aroha then st.(aroha := notes) else st.(avaroha := notes)
  }

  /** A click on a key. */
  function ToggleNote(st: Selector, id: string): Selector {
    SetNotes(st, Toggle(st.mode, CurrentNotes(st), id))
  }

  /** The "Clear" button. */
  function Clear(st: Selector): Selector {
    SetNotes(st, [])
  }

  /** The mode buttons. */
  function SwitchMode(st: Selector, m: Mode): Selector {
    st.(mode := m)
  }

  /** Whether the "Identify Raga" button is enabled. */
  predicate SubmitEnabled(st: Selector, isLoading: bool) {
    !(|st.aroha| == 0 || |st.avaroha| == 0 || isLoading)
  }

  /** What `handleGuess` passes on: the raw ids of both lists, in list order. */
  function Guess(st: Selector): (seq<string>, seq<string>) {
    (st.aroha, st.avaroha)
  }

  /** A click edits only the current mode's list, by the toggle on that list. */
  lemma EditsStayInMode(st: Selector, id: string)
    ensures ToggleNote(st, id).mode == st.mode
    ensures CurrentNotes(ToggleNote(st, id)) == Toggle(st.mode, CurrentNotes(st), id)
    ensures st.mode == Aroha ==> ToggleNote(st, id).avaroha == st.avaroha
    ensures st.mode == Avaroha ==> ToggleNote(st, id).aroha == st.aroha
  {
  }

  /** "Clear" empties the current mode's list and leaves the other alone. */
  lemma ClearEmptiesCurrent(st: Selector)
    ensures Clear(st).mode == st.mode && CurrentNotes(Clear(st)) == []
    ensures st.mode == Aroha ==> Clear(st).avaroha == st.avaroha
    ensures st.mode == Avaroha ==> Clear(st).aroha == st.aroha
  {
  }

  /** Submitting is off on first render, while a request is in flight, and
      right after "Clear", which empties one of the two lists. */
  lemma SubmitDisabled(st: Selector, isLoading: bool)
    ensures !SubmitEnabled(Initial, isLoading)
    ensures !SubmitEnabled(st, true)
    ensures !SubmitEnabled(Clear(st), isLoading)
    ensures SubmitEnabled(st, isLoading) ==> |Guess(st).0| > 0 && |Guess(st).1| > 0
  {
  }

  /** Every id is a catalog id, aroha is strictly ascending and avaroha strictly descending. */
  predicate Valid(st: Selector) {
    && Canonical(Aroha, st.aroha) && Canonical(Avaroha, st.avaroha)
    && (forall i :: 0 <= i < |st.aroha| ==> IsCatalogId(st.aroha[i]))
    && (forall i :: 0 <= i < |st.avaroha| ==> IsCatalogId(st.avaroha[i]))
  }

  /** A user interaction with the selector. */
  datatype Action = Press(id: string) | ClearPressed | ModePressed(m: Mode)

  /** The state after a user interaction; keys only ever offer catalog ids. */
  function Step(st: Selector, a: Action): Selector {
    match a
    case Press(id) => ToggleNote(st, id)
    case ClearPressed => Clear(st)
    case ModePressed(m) => SwitchMode(st, m)
  }

  /** The state after a run of interactions from the first render. */
  function Run(actions: seq<Action>): Selector {
    if |actions| == 0 then Initial
    else Step(Run(actions[..|actions| - 1]), actions[|actions| - 1])
  }

  /** Only catalog keys are pressed. */
  predicate PressesCatalogKeys(actions: seq<Action>) {
    forall i :: 0 <= i < |actions| && actions[i].Press? ==> IsCatalogId(actions[i].id)
  }

  /** A list of catalog ids stays one under a toggle by a catalog id. */
  lemma ToggleKeepsCatalog(mode: Mode, s: seq<string>, x: string)
    requires forall i :: 0 <= i < |s| ==> IsCatalogId(s[i])
    requires IsCatalogId(x)
    ensures forall i :: 0 <= i < |Toggle(mode, s, x)| ==> IsCatalogId(Toggle(mode, s, x)[i])
  {
    var r := Toggle(mode, s, x);
    if x in s {
      ToggleRemoves(mode, s, x);
    } else {
      ToggleInserts(mode, s, x);
    }
    assert multiset(r) <= multiset(s) + multiset{x};
    forall i | 0 <= i < |r|
      ensures IsCatalogId(r[i])
    {
      assert r[i] in multiset(r);
      assert r[i] in multiset(s) || r[i] == x;
    }
  }

  /** One interaction keeps the state valid. */
  lemma StepValid(st: Selector, a: Action)
    requires Valid(st)
    requires a.Press? ==> IsCatalogId(a.id)
    ensures Valid(Step(st, a))
  {
    if a.Press? {
      var cur := CurrentNotes(st);
      TogglePreservesCanonical(st.mode, cur, a.id);
      ToggleKeepsCatalog(st.mode, cur, a.id);
    }
  }

  /** Whatever the user clicks, aroha stays strictly ascending and avaroha
      strictly descending, both made of catalog ids. */
  lemma {:induction false} RunValid(actions: seq<Action>)
    requires PressesCatalogKeys(actions)
    ensures Valid(Run(actions))
  {
    if |actions| > 0 {
      RunValid(actions[..|actions| - 1]);
      StepValid(Run(actions[..|actions| - 1]), actions[|actions| - 1]);
    }
  }
}
