/** A FAT directory as a sequence of 32-byte slots, and the finite map from names to slots that
    it stands for. */
module DirMaps {
  import opened Words
  import opened Names

  type Slot = s: seq<byte> | |s| == 32 witness seq(32, i => 0)
  type Name = Name83

  /** The end marker: no entry from here on. */
  predicate Ends(s: Slot) { s[0] == 0x00 }

  /** is_deleted_entry. */
  predicate Deleted(s: Slot) { s[0] == 0xE5 }

  /** is_long_name_entry: all four low attribute bits set. */
  predicate LongName(s: Slot) { s[11] % 16 == 15 }

  function NameOf(s: Slot): Name { s[..11] }

  /** An entry that find_directory_entry compares names with. */
  predicate InUse(s: Slot) {
    !Ends(s) && !Deleted(s) && !LongName(s)
  }

  predicate Matches(s: Slot, name: Name) {
    InUse(s) && NameOf(s) == name
  }

  /** No end marker before slot i. */
  ghost predicate Reached(dir: seq<Slot>, i: nat) {
    i <= |dir| && forall j | 0 <= j < i :: !Ends(dir[j])
  }

  /** Slot i is a live entry of the given name. */
  ghost predicate LiveAt(dir: seq<Slot>, i: nat, name: Name) {
    i < |dir| && Reached(dir, i) && Matches(dir[i], name)
  }

  /** The first live entry of a name. */
  ghost predicate FirstAt(dir: seq<Slot>, i: nat, name: Name) {
    LiveAt(dir, i, name) && forall j | 0 <= j < i :: !Matches(dir[j], name)
  }

  ghost predicate Listed(dir: seq<Slot>, name: Name) {
    exists i: nat :: LiveAt(dir, i, name)
  }

  /** Names are unique among the live entries. */
  ghost predicate NamesUnique(dir: seq<Slot>) {
    forall i: nat, j: nat, n: Name | LiveAt(dir, i, n) && LiveAt(dir, j, n) :: i == j
  }

  /** Nothing but end markers follows an end marker. */
  ghost predicate EndsStay(dir: seq<Slot>) {
    forall i, j | 0 <= i < j < |dir| && Ends(dir[i]) :: Ends(dir[j])
  }

  ghost predicate WellFormed(dir: seq<Slot>) {
    NamesUnique(dir) && EndsStay(dir)
  }

  /** The directory as a map from names to slots. */
  ghost function MapOf(dir: seq<Slot>): (m: imap<Name, Slot>)
    ensures forall n: Name :: n in m <==> Listed(dir, n)
    ensures forall n: Name | n in m :: exists i: nat :: LiveAt(dir, i, n) && m[n] == dir[i]
  {
    imap n: Name | Listed(dir, n) :: var i: nat :| LiveAt(dir, i, n); dir[i]
  }

  lemma MapAt(dir: seq<Slot>, i: nat, n: Name)
    requires NamesUnique(dir) && LiveAt(dir, i, n)
    ensures n in MapOf(dir) && MapOf(dir)[n] == dir[i]
  {
    assert Listed(dir, n);
    var j: nat :| LiveAt(dir, j, n) && MapOf(dir)[n] == dir[j];
  }

  /** A map is the directory's map when both know the same live entries. */
  lemma MapIs(dir: seq<Slot>, m: imap<Name, Slot>)
    requires NamesUnique(dir)
    requires forall i: nat, n: Name | LiveAt(dir, i, n) :: n in m && m[n] == dir[i]
    requires forall n: Name | n in m :: Listed(dir, n)
    ensures MapOf(dir) == m
  {
    hide LiveAt;
    forall n: Name | n in MapOf(dir) ensures n in m && m[n] == MapOf(dir)[n] {
      var i: nat :| LiveAt(dir, i, n);
      MapAt(dir, i, n);
    }
  }

  // ----- searching -----

  /** find_directory_entry's search from slot i on: the first match before an end marker. */
  ghost function Search(dir: seq<Slot>, i: nat, name: Name): (j: Option<nat>)
    ensures j.Some? ==> i <= j.value < |dir|
    decreases |dir| - i
  {
    if i >= |dir| || Ends(dir[i]) then None
    else if Matches(dir[i], name) then Some(i)
    else Search(dir, i + 1, name)
  }

  /** The search finds the first live entry of the name, and nothing exactly when there is none. */
  lemma {:induction false} SearchIsFirst(dir: seq<Slot>, i: nat, name: Name)
    requires Reached(dir, i) && forall k | 0 <= k < i :: !Matches(dir[k], name)
    ensures match Search(dir, i, name)
      case Some(j) => FirstAt(dir, j, name)
      case None => !Listed(dir, name)
    decreases |dir| - i
  {
    if i < |dir| && !Ends(dir[i]) && !Matches(dir[i], name) {
      SearchIsFirst(dir, i + 1, name);
    }
  }

  /** In numbers: slot j is found when it holds the name and is neither deleted nor part of a long name,
      no slot up to it is an end marker, and no earlier one would do. */
  lemma SearchMeans(dir: seq<Slot>, name: Name, j: nat)
    ensures Search(dir, 0, name) == Some(j) <==>
      && j < |dir| && dir[j][..11] == name && dir[j][0] != 0xE5 && dir[j][11] % 16 != 15
      && (forall i | 0 <= i <= j :: dir[i][0] != 0x00)
      && forall i | 0 <= i < j :: dir[i][..11] != name || dir[i][0] == 0xE5 || dir[i][11] % 16 == 15
    ensures Search(dir, 0, name) == None <==>
      forall j: nat | j < |dir| && (forall i | 0 <= i <= j :: dir[i][0] != 0x00) ::
        dir[j][..11] != name || dir[j][0] == 0xE5 || dir[j][11] % 16 == 15
  {
    SearchIsFirst(dir, 0, name);
    var r := Search(dir, 0, name);
    hide Search;
    if r.Some? {
      var k := r.value;
      assert FirstAt(dir, k, name);
      assert dir[k][..11] == name && forall i | 0 <= i <= k :: dir[i][0] != 0x00;
    } else {
      forall j: nat | j < |dir| && (forall i | 0 <= i <= j :: dir[i][0] != 0x00)
        ensures dir[j][..11] != name || dir[j][0] == 0xE5 || dir[j][11] % 16 == 15
      {
        assert !LiveAt(dir, j, name);
      }
    }
  }

  /** The search is the map's lookup. */
  lemma SearchIsLookup(dir: seq<Slot>, name: Name)
    requires NamesUnique(dir)
    ensures match Search(dir, 0, name)
      case Some(j) => LiveAt(dir, j, name) && name in MapOf(dir) && MapOf(dir)[name] == dir[j]
      case None => name !in MapOf(dir)
  {
    SearchIsFirst(dir, 0, name);
    hide LiveAt, Matches;
    if Search(dir, 0, name).Some? { MapAt(dir, Search(dir, 0, name).value, name); }
  }

  // ----- one slot changes -----

  /** add_directory_entry's test for a slot it may fill. */
  predicate Reusable(s: Slot) { Ends(s) || Deleted(s) }

  /** add_directory_entry's search from slot i on. */
  ghost function Room(dir: seq<Slot>, i: nat): (j: Option<nat>)
    ensures j.Some? ==> i <= j.value < |dir|
    decreases |dir| - i
  {
    if i >= |dir| then None else if Reusable(dir[i]) then Some(i) else Room(dir, i + 1)
  }

  /** It finds the first slot that may be filled, and nothing exactly when every slot is taken. */
  lemma {:induction false} RoomIsFirst(dir: seq<Slot>, i: nat)
    requires i <= |dir| && forall k | 0 <= k < i :: !Reusable(dir[k])
    ensures match Room(dir, i)
      case Some(j) => j < |dir| && Reusable(dir[j]) && Reached(dir, j) && forall k | 0 <= k < j :: !Reusable(dir[k])
      case None => forall k | 0 <= k < |dir| :: !Reusable(dir[k])
    decreases |dir| - i
  {
    if i < |dir| && !Reusable(dir[i]) { RoomIsFirst(dir, i + 1); }
  }

  /** In numbers: the first byte of the slot is 0x00 or 0xE5. */
  lemma RoomMeans(dir: seq<Slot>, j: nat)
    ensures Room(dir, 0) == Some(j) <==>
      && j < |dir| && (dir[j][0] == 0x00 || dir[j][0] == 0xE5)
      && forall i | 0 <= i < j :: dir[i][0] != 0x00 && dir[i][0] != 0xE5
    ensures Room(dir, 0) == None <==> forall i | 0 <= i < |dir| :: dir[i][0] != 0x00 && dir[i][0] != 0xE5
  {
    RoomIsFirst(dir, 0);
    hide Room;
  }

  /** Writing a slot that is reached, with anything but an end marker, changes no other slot's
      standing; over the first end marker it reaches one slot further, where another one waits. */
  lemma LiveAfterWrite(dir: seq<Slot>, i: nat, s: Slot, j: nat, n: Name)
    requires EndsStay(dir) && i < |dir| && Reached(dir, i) && !Ends(s)
    ensures LiveAt(dir[i := s], j, n) <==> (if j == i then Matches(s, n) else LiveAt(dir, j, n))
  {
    var dir' := dir[i := s];
    if j < |dir| && j != i {
      if Reached(dir, j) {
        assert Reached(dir', j) by { forall k | 0 <= k < j ensures !Ends(dir'[k]) {} }
      } else if Reached(dir', j) && i < j {
        assert forall k | 0 <= k < j && k != i :: !Ends(dir'[k]) && dir'[k] == dir[k];
        assert Ends(dir[i]);
        assert Ends(dir[j]);
      }
    }
  }

  lemma EndsStayAfterWrite(dir: seq<Slot>, i: nat, s: Slot)
    requires EndsStay(dir) && i < |dir| && Reached(dir, i) && !Ends(s)
    ensures EndsStay(dir[i := s])
  {
    var dir' := dir[i := s];
    assert forall k | 0 <= k < i :: !Ends(dir'[k]);
  }

  /** The map after slot i takes the value s: the entry it held leaves, the entry it now holds
      joins.  `taken` is the name slot i holds before, if it is live. */
  lemma WriteMeans(dir: seq<Slot>, i: nat, s: Slot, taken: Option<Name>)
    requires WellFormed(dir) && i < |dir| && Reached(dir, i) && !Ends(s)
    requires forall n: Name :: Matches(dir[i], n) <==> taken == Some(n)
    requires InUse(s) ==> Some(NameOf(s)) == taken || !Listed(dir, NameOf(s))
    ensures WellFormed(dir[i := s])
    ensures MapOf(dir[i := s]) == Rewritten(MapOf(dir), taken, s)
  {
    var dir' := dir[i := s];
    EndsStayAfterWrite(dir, i, s);
    forall j: nat, n: Name ensures LiveAt(dir', j, n) <==> (if j == i then Matches(s, n) else LiveAt(dir, j, n)) {
      LiveAfterWrite(dir, i, s, j, n);
    }
    assert forall n: Name :: LiveAt(dir, i, n) <==> taken == Some(n);
    hide LiveAt;
    assert NamesUnique(dir');
    var m := Rewritten(MapOf(dir), taken, s);
    forall j: nat, n: Name | LiveAt(dir', j, n) ensures n in m && m[n] == dir'[j] {
      if j != i { MapAt(dir, j, n); }
    }
    forall n: Name | n in m ensures Listed(dir', n) {
      if Matches(s, n) {
        assert LiveAt(dir', i, n);
      } else {
        var j: nat :| LiveAt(dir, j, n);
        assert LiveAt(dir', j, n);
      }
    }
    MapIs(dir', m);
  }

  ghost function Without(m: imap<Name, Slot>, gone: Option<Name>): imap<Name, Slot> {
    imap n: Name | n in m && gone != Some(n) :: m[n]
  }

  ghost function Rewritten(m: imap<Name, Slot>, gone: Option<Name>, s: Slot): imap<Name, Slot> {
    if InUse(s) then Without(m, gone)[NameOf(s) := s] else Without(m, gone)
  }

  /** Create: filling the first reusable slot adds exactly the new name -- if and only if the name
      does not begin with the deletion mark. */
  lemma CreateMeans(dir: seq<Slot>, s: Slot)
    requires WellFormed(dir) && Room(dir, 0).Some?
    requires !Ends(s) && !LongName(s) && !Listed(dir, NameOf(s))
    ensures var dir' := dir[Room(dir, 0).value := s];
      && WellFormed(dir')
      && MapOf(dir') == (if Deleted(s) then MapOf(dir) else MapOf(dir)[NameOf(s) := s])
      && (NameOf(s) in MapOf(dir') <==> NameOf(s)[0] != 0xE5)
  {
    RoomIsFirst(dir, 0);
    WriteMeans(dir, Room(dir, 0).value, s, None);
    assert Without(MapOf(dir), None) == MapOf(dir);
  }

  /** Delete: marking the entry takes exactly its name away. */
  lemma DeleteMeans(dir: seq<Slot>, i: nat, name: Name)
    requires WellFormed(dir) && LiveAt(dir, i, name)
    ensures WellFormed(dir[i := dir[i][0 := 0xE5]])
    ensures MapOf(dir[i := dir[i][0 := 0xE5]]) == Without(MapOf(dir), Some(name))
  {
    WriteMeans(dir, i, dir[i][0 := 0xE5], Some(name));
  }

  function Renamed(s: Slot, name: Name): Slot { name + s[11..] }

  /** Rename: the entry moves to the new name with everything else it says -- if and only if the
      new name does not begin with the deletion mark; otherwise the entry is lost. */
  lemma RenameMeans(dir: seq<Slot>, i: nat, name: Name, newName: Name)
    requires WellFormed(dir) && LiveAt(dir, i, name) && !Listed(dir, newName) && newName[0] != 0
    ensures WellFormed(dir[i := Renamed(dir[i], newName)])
    ensures MapOf(dir[i := Renamed(dir[i], newName)]) ==
      if newName[0] == 0xE5 then Without(MapOf(dir), Some(name))
      else Without(MapOf(dir), Some(name))[newName := Renamed(dir[i], newName)]
    ensures newName in MapOf(dir[i := Renamed(dir[i], newName)]) <==> newName[0] != 0xE5
  {
    var s := Renamed(dir[i], newName);
    assert NameOf(s) == newName;
    WriteMeans(dir, i, s, Some(name));
  }
}
