/**
 * The reverse icon lookup of `findNameByIconIndex`: the game's data tables
 * (`$dataItems`, `$dataWeapons`, `$dataArmors`, `$dataSkills`, `$dataStates`) are
 * searched in that fixed order for the first non-null entry with the queried
 * icon index, and that entry's name is returned.
 */
module Databases {
  import opened Wrappers

  /** A database row. `iconIndex` is absent for rows that have none. */
  datatype Entry = Entry(iconIndex: Option<nat>, name: string)

  /** A data table; `None` is a null slot (RPG Maker tables start with one). */
  type Table = seq<Option<Entry>>

  datatype Databases = Databases(items: Table, weapons: Table, armors: Table, skills: Table, states: Table)

  /** The priority order of the search. */
  function SearchOrder(db: Databases): seq<Table> {
    [db.items, db.weapons, db.armors, db.skills, db.states]
  }

  /** The predicate `item != null && item.iconIndex == iconIndex` passed to `find`. */
  predicate Matches(e: Option<Entry>, iconIndex: nat) {
    e.Some? && e.value.iconIndex == Some(iconIndex)
  }

  /** `Array.prototype.find` with that predicate, as a position: the first matching slot. */
  function FirstMatch(t: Table, iconIndex: nat): (r: Option<nat>)
    ensures r.Some? ==> r.value < |t| && Matches(t[r.value], iconIndex)
    ensures r.Some? ==> forall j | 0 <= j < r.value :: !Matches(t[j], iconIndex)
    ensures r.None? ==> forall j | 0 <= j < |t| :: !Matches(t[j], iconIndex)
  {
    if t == [] then None
    else if Matches(t[0], iconIndex) then Some(0)
    else match FirstMatch(t[1..], iconIndex)
      case None => None
      case Some(k) => Some(k + 1)
  }

  /** No slot of table `t` matches. */
  predicate NoMatchIn(t: Table, iconIndex: nat) {
    forall j | 0 <= j < |t| :: !Matches(t[j], iconIndex)
  }

  /**
   * The search over an ordered list of tables: the name of the first match of the
   * first table that has one, `None` when no table has one (which match is found is
   * stated by HigherTableWins). A match whose name is empty still ends the search.
   */
  function FindName(tables: seq<Table>, iconIndex: nat): (r: Option<string>)
    ensures r.None? <==> forall t | 0 <= t < |tables| :: NoMatchIn(tables[t], iconIndex)
  {
    if tables == [] then None
    else match FirstMatch(tables[0], iconIndex)
      case Some(k) => Some(tables[0][k].value.name)
      case None =>
        assert forall t | 1 <= t < |tables| :: tables[t] == tables[1..][t - 1];
        FindName(tables[1..], iconIndex)
  }

  /** `findNameByIconIndex`: the search in the priority order items, weapons, armors, skills, states. */
  function FindNameByIconIndex(iconIndex: nat, db: Databases): Option<string> {
    FindName(SearchOrder(db), iconIndex)
  }

  /**
   * The first match of the first table that has one is the answer, whatever the
   * lower-priority tables hold.
   */
  lemma {:induction false} HigherTableWins(tables: seq<Table>, t: nat, k: nat, iconIndex: nat)
    requires t < |tables| && k < |tables[t]|
    requires forall u | 0 <= u < t :: NoMatchIn(tables[u], iconIndex)
    requires forall j | 0 <= j < k :: !Matches(tables[t][j], iconIndex)
    requires Matches(tables[t][k], iconIndex)
    ensures FindName(tables, iconIndex) == Some(tables[t][k].value.name)
  {
    if t == 0 {
      assert FirstMatch(tables[0], iconIndex) == Some(k);
    } else {
      assert NoMatchIn(tables[0], iconIndex);
      assert tables[1..][t - 1] == tables[t];
      HigherTableWins(tables[1..], t - 1, k, iconIndex);
    }
  }

  /** An item with the icon shadows every other table, even when its name is empty. */
  lemma ItemsTakePriority(db: Databases, k: nat, iconIndex: nat)
    requires k < |db.items| && Matches(db.items[k], iconIndex)
    requires forall j | 0 <= j < k :: !Matches(db.items[j], iconIndex)
    ensures FindNameByIconIndex(iconIndex, db) == Some(db.items[k].value.name)
  {
    HigherTableWins(SearchOrder(db), 0, k, iconIndex);
  }

  /** A state with the icon is found when no item, weapon, armor or skill has it. */
  lemma StatesAreSearchedLast(db: Databases, k: nat, iconIndex: nat)
    requires NoMatchIn(db.items, iconIndex) && NoMatchIn(db.weapons, iconIndex)
    requires NoMatchIn(db.armors, iconIndex) && NoMatchIn(db.skills, iconIndex)
    requires k < |db.states| && Matches(db.states[k], iconIndex)
    requires forall j | 0 <= j < k :: !Matches(db.states[j], iconIndex)
    ensures FindNameByIconIndex(iconIndex, db) == Some(db.states[k].value.name)
  {
    var order := SearchOrder(db);
    assert forall u | 0 <= u < 4 :: NoMatchIn(order[u], iconIndex);
    HigherTableWins(order, 4, k, iconIndex);
  }
}
