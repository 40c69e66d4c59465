/**
 The registry as the COM resolver sees it (src/com/registry.rs): an interface of three
 reads, and the in-memory registry behind the tests, whose writes keep parent keys listed.
 */
module Registry {
  import opened Wrappers
  import opened Text

  datatype Hive = Hkcu | Hklm
  datatype View = V64 | V32

  datatype Location = Location(hive: Hive, view: View)

  datatype RegValue =
    | Str(text: string) | ExpandStr(text: string) | Dword(number: nat) | Binary(data: seq<nat>)
    | NotFound | AccessDenied | Error(code: nat)

  const ERROR_ACCESS_DENIED: nat := 5

  /** What `ComRegistry` offers: a value, whether a key exists, and the names of its subkeys. */
  datatype Registry = Registry(
    read: (Location, string, string) -> RegValue,
    keyExists: (Location, string) -> bool,
    subkeysOf: (Location, string) -> Result<seq<string>, nat>)

  // ---------- key paths ----------

  /** `rsplit_once('\\')` */
  function RSplit(s: string): Option<(string, string)> {
    if s == [] then None
    else
      var n := |s| - 1;
      if s[n] == '\\' then Some((s[..n], []))
      else match RSplit(s[..n])
           case None => None
           case Some((parent, child)) => Some((parent, child + [s[n]]))
  }

  lemma {:induction false} RSplitMeaning(s: string)
    ensures RSplit(s).Some? ==> s == RSplit(s).value.0 + "\\" + RSplit(s).value.1 && '\\' !in RSplit(s).value.1
    ensures RSplit(s).None? <==> '\\' !in s
  {
    if s != [] {
      var n := |s| - 1;
      assert s == s[..n] + [s[n]];
      RSplitMeaning(s[..n]);
    }
  }

  lemma {:induction false} RSplitJoin(parent: string, child: string)
    requires '\\' !in child
    ensures RSplit(parent + "\\" + child) == Some((parent, child))
    decreases |child|
  {
    var s := parent + "\\" + child;
    if child == [] {
      assert s[..|s| - 1] == parent;
    } else {
      assert s[..|s| - 1] == parent + "\\" + child[..|child| - 1];
      RSplitJoin(parent, child[..|child| - 1]);
      assert child == child[..|child| - 1] + [child[|child| - 1]];
    }
  }

  lemma {:induction false} LowerKeepsBackslash(s: string)
    ensures '\\' in Lower(s) <==> '\\' in s
  {
    if s != [] {
      LowerKeepsBackslash(s[1..]);
      assert s == [s[0]] + s[1..];
    }
  }

  /** Splitting and lowercasing commute. */
  lemma RSplitLower(s: string)
    ensures RSplit(Lower(s)) == match RSplit(s)
                                case None => None
                                case Some((parent, child)) => Some((Lower(parent), Lower(child)))
  {
    RSplitMeaning(s);
    RSplitMeaning(Lower(s));
    LowerKeepsBackslash(s);
    match RSplit(s)
    case None =>
    case Some((parent, child)) =>
      LowerConcat(parent + "\\", child);
      LowerConcat(parent, "\\");
      LowerKeepsBackslash(child);
      RSplitJoin(Lower(parent), Lower(child));
      assert Lower("\\") == "\\";
  }

  lemma RSplitShrinks(s: string)
    requires RSplit(s).Some?
    ensures |RSplit(s).value.0| < |s|
  {
    RSplitMeaning(s);
  }

  // ---------- the in-memory registry as a value ----------

  type Names = seq<string>

  datatype Store = Store(
    values: map<(Location, string, string), RegValue>,
    subkeys: map<(Location, string), Names>,
    denied: set<(Location, string)>)

  const NOTHING: Store := Store(map[], map[], {})

  predicate HasName(names: Names, child: string) {
    exists i | 0 <= i < |names| :: SameIgnoringCase(names[i], child)
  }

  function ListedUnder(m: Store, loc: Location, parent: string): Names {
    if (loc, parent) in m.subkeys then m.subkeys[(loc, parent)] else []
  }

  /** One turn of the loop of `set`: `child` is listed under `parent`. */
  function AddChild(m: Store, loc: Location, parent: string, child: string): Store {
    var names := ListedUnder(m, loc, Lower(parent));
    m.(subkeys := m.subkeys[(loc, Lower(parent)) := if HasName(names, child) then names else names + [child]])
  }

  /** The loop: every ancestor lists the next key on the way down. */
  function ListAncestors(m: Store, loc: Location, key: string): Store
    decreases |key|
  {
    match RSplit(key)
    case None => m
    case Some((parent, child)) =>
      RSplitShrinks(key);
      ListAncestors(AddChild(m, loc, parent, child), loc, parent)
  }

  function SetValue(m: Store, loc: Location, key: string, name: string, value: RegValue): Store {
    ListAncestors(m.(values := m.values[(loc, Lower(key), Lower(name)) := value]), loc, key)
  }

  /** A key is denied when it or an ancestor is. */
  predicate IsDeniedLower(m: Store, loc: Location, key: string)
    decreases |key|
  {
    (loc, key) in m.denied
    || match RSplit(key)
       case None => false
       case Some((parent, _)) => RSplitShrinks(key); IsDeniedLower(m, loc, parent)
  }

  function ReadValue(m: Store, loc: Location, key: string, name: string): RegValue {
    if IsDeniedLower(m, loc, Lower(key)) then AccessDenied
    else if (loc, Lower(key), Lower(name)) in m.values then m.values[(loc, Lower(key), Lower(name))]
    else NotFound
  }

  predicate KeyExists(m: Store, loc: Location, key: string) {
    && !IsDeniedLower(m, loc, Lower(key))
    && ((exists k | k in m.values :: k.0 == loc && k.1 == Lower(key)) || (loc, Lower(key)) in m.subkeys)
  }

  function InsertName(names: Names, x: string): Names {
    if names == [] || LexLess(x, names[0]) then [x] + names else [names[0]] + InsertName(names[1..], x)
  }

  /** `sort` */
  function SortNames(names: Names): Names {
    if names == [] then [] else InsertName(SortNames(names[1..]), names[0])
  }

  function EnumSubkeys(m: Store, loc: Location, key: string): Result<seq<string>, nat> {
    if IsDeniedLower(m, loc, Lower(key)) then Err(ERROR_ACCESS_DENIED)
    else Ok(SortNames(ListedUnder(m, loc, Lower(key))))
  }

  function AsRegistry(m: Store): Registry {
    Registry((loc, key, name) => ReadValue(m, loc, key, name),
             (loc, key) => KeyExists(m, loc, key),
             (loc, key) => EnumSubkeys(m, loc, key))
  }

  lemma {:induction false} InsertNameMembers(names: Names, x: string)
    ensures multiset(InsertName(names, x)) == multiset(names) + multiset{x}
  {
    if names != [] && !LexLess(x, names[0]) {
      InsertNameMembers(names[1..], x);
      assert names == [names[0]] + names[1..];
    }
  }

  lemma {:induction false} SortNamesMembers(names: Names)
    ensures multiset(SortNames(names)) == multiset(names)
  {
    if names != [] {
      SortNamesMembers(names[1..]);
      InsertNameMembers(SortNames(names[1..]), names[0]);
      assert names == [names[0]] + names[1..];
    }
  }

  lemma SortNamesSame(names: Names, x: string)
    ensures x in SortNames(names) <==> x in names
  {
    SortNamesMembers(names);
    assert x in multiset(names) <==> x in multiset(SortNames(names));
  }

  // ---------- what every write keeps ----------

  /** Every ancestor of `key` lists the next key on the way down. */
  ghost predicate Listed(m: Store, loc: Location, key: string)
    decreases |key|
  {
    match RSplit(key)
    case None => true
    case Some((parent, child)) =>
      RSplitShrinks(key);
      && (exists e :: e in ListedUnder(m, loc, parent) && Lower(e) == child)
      && Listed(m, loc, parent)
  }

  /** The parent-listing invariant: keys with values are reachable by enumeration from the
      top, listed names are single components, and keys are stored in lower case. */
  ghost predicate Valid(m: Store) {
    && (forall k :: k in m.values ==> Lower(k.1) == k.1 && Listed(m, k.0, k.1))
    && (forall k, e :: k in m.subkeys && e in m.subkeys[k] ==> '\\' !in e)
  }

  lemma NothingIsValid()
    ensures Valid(NOTHING)
  {
  }

  /** Listings only grow. */
  ghost predicate Grows(m: Store, m': Store) {
    && m'.values == m.values && m'.denied == m.denied
    && forall loc, key, e :: e in ListedUnder(m, loc, key) ==> e in ListedUnder(m', loc, key)
  }

  lemma {:induction false} ListedGrows(m: Store, m': Store, loc: Location, key: string)
    requires Grows(m, m') && Listed(m, loc, key)
    ensures Listed(m', loc, key)
    decreases |key|
  {
    if RSplit(key).Some? {
      RSplitShrinks(key);
      ListedGrows(m, m', loc, RSplit(key).value.0);
    }
  }

  lemma AddChildGrows(m: Store, loc: Location, parent: string, child: string)
    ensures Grows(m, AddChild(m, loc, parent, child))
    ensures exists e :: && e in ListedUnder(AddChild(m, loc, parent, child), loc, Lower(parent))
                        && Lower(e) == Lower(child)
  {
    var names := ListedUnder(m, loc, Lower(parent));
    if HasName(names, child) {
      var i :| 0 <= i < |names| && SameIgnoringCase(names[i], child);
      assert names[i] in ListedUnder(AddChild(m, loc, parent, child), loc, Lower(parent));
    } else {
      assert child in ListedUnder(AddChild(m, loc, parent, child), loc, Lower(parent));
    }
  }

  ghost predicate SingleComponents(m: Store) {
    forall k, e :: k in m.subkeys && e in m.subkeys[k] ==> '\\' !in e
  }

  lemma {:induction false} ListAncestorsLists(m: Store, loc: Location, key: string)
    requires SingleComponents(m)
    ensures var r := ListAncestors(m, loc, key);
            Grows(m, r) && Listed(r, loc, Lower(key)) && SingleComponents(r)
    decreases |key|
  {
    RSplitLower(key);
    if RSplit(key).Some? {
      var (parent, child) := RSplit(key).value;
      RSplitShrinks(key);
      RSplitMeaning(key);
      AddChildGrows(m, loc, parent, child);
      var m' := AddChild(m, loc, parent, child);
      ListAncestorsLists(m', loc, parent);
    }
  }

  /** `set` keeps the invariant, changes one value, and denies nothing. */
  lemma SetKeepsValid(m: Store, loc: Location, key: string, name: string, value: RegValue)
    requires Valid(m)
    ensures Valid(SetValue(m, loc, key, name, value))
    ensures SetValue(m, loc, key, name, value).values == m.values[(loc, Lower(key), Lower(name)) := value]
    ensures SetValue(m, loc, key, name, value).denied == m.denied
  {
    var m1 := m.(values := m.values[(loc, Lower(key), Lower(name)) := value]);
    var r := SetValue(m, loc, key, name, value);
    ListAncestorsLists(m1, loc, key);
    forall k | k in r.values ensures Lower(k.1) == k.1 && Listed(r, k.0, k.1) {
      if k == (loc, Lower(key), Lower(name)) {
        LowerIdempotent(key);
      } else {
        ListedSameSubkeys(m, m1, k.0, k.1);
        ListedGrows(m1, r, k.0, k.1);
      }
    }
  }

  /** No key lists a name twice, in whatever case. */
  ghost predicate ListedOnce(m: Store) {
    forall k, i, j :: k in m.subkeys && 0 <= i < j < |m.subkeys[k]| ==>
                        !SameIgnoringCase(m.subkeys[k][i], m.subkeys[k][j])
  }

  lemma AddChildListsOnce(m: Store, loc: Location, parent: string, child: string)
    requires ListedOnce(m)
    ensures ListedOnce(AddChild(m, loc, parent, child))
  {
    var names, key := ListedUnder(m, loc, Lower(parent)), (loc, Lower(parent));
    assert forall i :: 0 <= i < |names| && SameIgnoringCase(names[i], child) ==> HasName(names, child);
    var m' := AddChild(m, loc, parent, child);
    forall k, i, j | k in m'.subkeys && 0 <= i < j < |m'.subkeys[k]|
      ensures !SameIgnoringCase(m'.subkeys[k][i], m'.subkeys[k][j])
    {
      if k == key && j == |names| { assert !HasName(names, child); }
    }
  }

  /** The loop of a write keeps that. */
  lemma {:induction false} WritesListOnce(m: Store, loc: Location, key: string)
    requires ListedOnce(m)
    ensures ListedOnce(ListAncestors(m, loc, key))
    decreases |key|
  {
    if RSplit(key).Some? {
      var (parent, child) := RSplit(key).value;
      RSplitShrinks(key);
      AddChildListsOnce(m, loc, parent, child);
      WritesListOnce(AddChild(m, loc, parent, child), loc, parent);
    }
  }

  lemma SetListsOnce(m: Store, loc: Location, key: string, name: string, value: RegValue)
    requires ListedOnce(m)
    ensures ListedOnce(SetValue(m, loc, key, name, value))
  {
    var m1 := m.(values := m.values[(loc, Lower(key), Lower(name)) := value]);
    assert ListedOnce(m1);
    WritesListOnce(m1, loc, key);
  }

  lemma {:induction false} ListedSameSubkeys(m: Store, m': Store, loc: Location, key: string)
    requires m.subkeys == m'.subkeys && Listed(m, loc, key)
    ensures Listed(m', loc, key)
    decreases |key|
  {
    if RSplit(key).Some? {
      RSplitShrinks(key);
      ListedSameSubkeys(m, m', loc, RSplit(key).value.0);
    }
  }

  lemma DenyKeepsValid(m: Store, loc: Location, key: string)
    requires Valid(m)
    ensures Valid(m.(denied := m.denied + {(loc, Lower(key))}))
  {
    var r := m.(denied := m.denied + {(loc, Lower(key))});
    forall k | k in r.values ensures Listed(r, k.0, k.1) {
      ListedSameSubkeys(m, r, k.0, k.1);
    }
  }

  // ---------- the in-memory registry ----------

  class MockRegistry {
    var values: map<(Location, string, string), RegValue>
    var subkeys: map<(Location, string), Names>
    var denied: set<(Location, string)>

    ghost function Value(): Store
      reads this
    {
      Store(values, subkeys, denied)
    }

    constructor ()
      ensures Value() == NOTHING && Valid(Value())
    {
      values, subkeys, denied := map[], map[], {};
      new;
      NothingIsValid();
    }

    method Set(loc: Location, key: string, name: string, value: RegValue)
      requires Valid(Value())
      modifies this
      ensures Value() == SetValue(old(Value()), loc, key, name, value) && Valid(Value())
    {
      SetKeepsValid(Value(), loc, key, name, value);
      values := values[(loc, Lower(key), Lower(name)) := value];
      var current := key;
      while true
        invariant ListAncestors(Value(), loc, current) == SetValue(old(Value()), loc, key, name, value)
        decreases |current|
      {
        var split := RSplit(current);
        if split.None? {
          break;
        }
        var (parent, child) := split.value;
        RSplitShrinks(current);
        var entry := if (loc, Lower(parent)) in subkeys then subkeys[(loc, Lower(parent))] else [];
        if !HasName(entry, child) {
          entry := entry + [child];
        }
        subkeys := subkeys[(loc, Lower(parent)) := entry];
        current := parent;
      }
    }

    method DenyAccess(loc: Location, key: string)
      requires Valid(Value())
      modifies this
      ensures Value() == old(Value()).(denied := old(denied) + {(loc, Lower(key))}) && Valid(Value())
    {
      DenyKeepsValid(Value(), loc, key);
      denied := denied + {(loc, Lower(key))};
    }

    method IsDenied(loc: Location, key: string) returns (r: bool)
      ensures r == IsDeniedLower(Value(), loc, Lower(key))
    {
      var current := Lower(key);
      while true
        invariant IsDeniedLower(Value(), loc, current) == IsDeniedLower(Value(), loc, Lower(key))
        decreases |current|
      {
        if (loc, current) in denied {
          return true;
        }
        var split := RSplit(current);
        if split.None? {
          return false;
        }
        RSplitShrinks(current);
        current := split.value.0;
      }
    }

    method Read(loc: Location, key: string, name: string) returns (r: RegValue)
      ensures r == ReadValue(Value(), loc, key, name)
    {
      var isDenied := IsDenied(loc, key);
      if isDenied {
        return AccessDenied;
      }
      var k := (loc, Lower(key), Lower(name));
      return if k in values then values[k] else NotFound;
    }
  }
}
