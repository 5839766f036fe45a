/** The single expanded detail row (`toggleCharacterDetails`). */
module Selection {
  import opened Characters

  /** The detail row under `row` is shown: the selection holds a character with
      the same id. */
  predicate IsExpanded(selected: Option<Character>, row: Character)
  {
    selected.Some? && selected.value.id == row.id
  }

  /** Clicking row `c`: collapses it when it is the expanded one, otherwise
      selects it. Afterwards at most the rows sharing `c`'s id are expanded, and
      they are expanded exactly when `c` was not. */
  function Toggle(selected: Option<Character>, c: Character): (r: Option<Character>)
    ensures r.None? <==> IsExpanded(selected, c)
    ensures r.Some? ==> r.value == c
    ensures forall row :: IsExpanded(r, row) <==> !IsExpanded(selected, c) && row.id == c.id
  {
    if selected.Some? && selected.value.id == c.id then None else Some(c)
  }

  /** Clicking the same row twice from nothing selected leaves nothing selected. */
  lemma ToggleTwiceFromNone(c: Character)
    ensures Toggle(Toggle(None, c), c) == None
  {
  }

  /** Clicking another row moves the selection instead of closing it. */
  lemma ToggleOtherRow(d: Character, c: Character)
    requires d.id != c.id
    ensures Toggle(Some(d), c) == Some(c)
  {
  }
}
