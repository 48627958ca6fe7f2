/** `discover` of document_apps.rs: usable handlers, sorted with defaults first, one per id. */
module Discovery {
  import opened Texts

  datatype App = App(id: string, name: string, isDefault: bool, icon: string)

  /** The sort key; `lower` stands for `str::to_lowercase`. */
  datatype Key = Key(isOther: bool, name: string, id: string)

  function KeyOf(lower: string -> string, a: App): Key {
    Key(!a.isDefault, lower(a.name), a.id)
  }

  predicate Usable(a: App) {
    a.id != "" && TrimSpace(a.name) != ""
  }

  // ---------- order ----------

  predicate TextLe(a: string, b: string) {
    a == "" || (b != "" && (a[0] < b[0] || (a[0] == b[0] && TextLe(a[1..], b[1..]))))
  }

  predicate KeyLe(a: Key, b: Key) {
    if a.isOther != b.isOther then b.isOther
    else if a.name != b.name then TextLe(a.name, b.name)
    else TextLe(a.id, b.id)
  }

  lemma {:induction false} TextOrder(a: string, b: string, c: string)
    ensures TextLe(a, a)
    ensures TextLe(a, b) || TextLe(b, a)
    ensures TextLe(a, b) && TextLe(b, a) ==> a == b
    ensures TextLe(a, b) && TextLe(b, c) ==> TextLe(a, c)
  {
    if a != "" {
      TextOrder(a[1..], if b == "" then "" else b[1..], if c == "" then "" else c[1..]);
      assert a == [a[0]] + a[1..] && (b != "" ==> b == [b[0]] + b[1..]);
    }
  }

  lemma KeyOrder(a: Key, b: Key, c: Key)
    ensures KeyLe(a, b) || KeyLe(b, a)
    ensures KeyLe(a, b) && KeyLe(b, c) ==> KeyLe(a, c)
  {
    TextOrder(a.name, b.name, c.name);
    TextOrder(c.name, b.name, a.name);
    TextOrder(a.id, b.id, c.id);
  }

  // ---------- sorting ----------

  /** The order that the sort key gives. */
  function ByKey(lower: string -> string): (App, App) -> bool {
    (a, b) => KeyLe(KeyOf(lower, a), KeyOf(lower, b))
  }

  ghost predicate Sorted(le: (App, App) -> bool, apps: seq<App>) {
    forall i, j | 0 <= i < j < |apps| :: le(apps[i], apps[j])
  }

  /** Put `a` in front of the first entry that is not before it. */
  function Insert(lower: string -> string, a: App, apps: seq<App>): seq<App> {
    if apps == [] || KeyLe(KeyOf(lower, a), KeyOf(lower, apps[0])) then [a] + apps
    else [apps[0]] + Insert(lower, a, apps[1..])
  }

  /** A stable sort by key, which `sort_by_key` is. */
  function Sort(lower: string -> string, apps: seq<App>): seq<App> {
    if apps == [] then [] else Insert(lower, apps[0], Sort(lower, apps[1..]))
  }

  lemma {:induction false} InsertMembers(lower: string -> string, a: App, apps: seq<App>)
    ensures multiset(Insert(lower, a, apps)) == multiset(apps) + multiset{a}
  {
    if apps != [] && !KeyLe(KeyOf(lower, a), KeyOf(lower, apps[0])) {
      InsertMembers(lower, a, apps[1..]);
      assert apps == [apps[0]] + apps[1..];
    }
  }

  lemma SortedCons(lower: string -> string, a: App, apps: seq<App>)
    requires Sorted(ByKey(lower), apps) && forall x | x in apps :: KeyLe(KeyOf(lower, a), KeyOf(lower, x))
    ensures Sorted(ByKey(lower), [a] + apps)
  {
  }

  lemma {:induction false} InsertSorted(lower: string -> string, a: App, apps: seq<App>)
    requires Sorted(ByKey(lower), apps)
    ensures Sorted(ByKey(lower), Insert(lower, a, apps))
  {
    if apps != [] {
      var first, rest := apps[0], apps[1..];
      KeyOrder(KeyOf(lower, a), KeyOf(lower, first), KeyOf(lower, a));
      if KeyLe(KeyOf(lower, a), KeyOf(lower, first)) {
        forall x | x in apps ensures KeyLe(KeyOf(lower, a), KeyOf(lower, x)) {
          KeyOrder(KeyOf(lower, a), KeyOf(lower, first), KeyOf(lower, x));
        }
        SortedCons(lower, a, apps);
      } else {
        InsertSorted(lower, a, rest);
        InsertMembers(lower, a, rest);
        forall x | x in Insert(lower, a, rest) ensures KeyLe(KeyOf(lower, first), KeyOf(lower, x)) {
          assert x in multiset(Insert(lower, a, rest));
          assert x == a || x in rest;
        }
        SortedCons(lower, first, Insert(lower, a, rest));
      }
    }
  }

  lemma {:induction false} SortEffect(lower: string -> string, apps: seq<App>)
    ensures Sorted(ByKey(lower), Sort(lower, apps)) && multiset(Sort(lower, apps)) == multiset(apps)
  {
    if apps != [] {
      SortEffect(lower, apps[1..]);
      InsertSorted(lower, apps[0], Sort(lower, apps[1..]));
      InsertMembers(lower, apps[0], Sort(lower, apps[1..]));
      assert apps == [apps[0]] + apps[1..];
    }
  }

  /** The entries with one key, in order. */
  function WithKey(lower: string -> string, apps: seq<App>, key: Key): seq<App> {
    if apps == [] then [] else
      (if KeyOf(lower, apps[0]) == key then [apps[0]] else []) + WithKey(lower, apps[1..], key)
  }

  lemma {:induction false} InsertIsStable(lower: string -> string, a: App, apps: seq<App>, key: Key)
    ensures WithKey(lower, Insert(lower, a, apps), key) == WithKey(lower, [a] + apps, key)
  {
    assert ([a] + apps)[1..] == apps;
    if apps != [] && !KeyLe(KeyOf(lower, a), KeyOf(lower, apps[0])) {
      var rest := Insert(lower, a, apps[1..]);
      InsertIsStable(lower, a, apps[1..], key);
      KeyOrder(KeyOf(lower, a), KeyOf(lower, a), KeyOf(lower, a));
      assert ([apps[0]] + rest)[1..] == rest && ([a] + apps[1..])[1..] == apps[1..];
    }
  }

  /** The sort is stable: entries with equal keys keep their order. */
  lemma {:induction false} SortIsStable(lower: string -> string, apps: seq<App>, key: Key)
    ensures WithKey(lower, Sort(lower, apps), key) == WithKey(lower, apps, key)
  {
    if apps != [] {
      SortIsStable(lower, apps[1..], key);
      InsertIsStable(lower, apps[0], Sort(lower, apps[1..]), key);
      assert ([apps[0]] + Sort(lower, apps[1..]))[1..] == Sort(lower, apps[1..]);
    }
  }

  // ---------- filtering and deduplication ----------

  function OnlyUsable(apps: seq<App>): seq<App> {
    if apps == [] then [] else
      var init, last := OnlyUsable(apps[..|apps| - 1]), apps[|apps| - 1];
      if Usable(last) then init + [last] else init
  }

  function Ids(apps: seq<App>): set<string> {
    set a | a in apps :: a.id
  }

  function FirstPerId(apps: seq<App>): seq<App> {
    if apps == [] then [] else
      var init, last := apps[..|apps| - 1], apps[|apps| - 1];
      if last.id in Ids(init) then FirstPerId(init) else FirstPerId(init) + [last]
  }

  function Discovered(lower: string -> string, apps: seq<App>): seq<App> {
    FirstPerId(Sort(lower, OnlyUsable(apps)))
  }

  ghost predicate OnePerId(apps: seq<App>) {
    forall i, j | 0 <= i < j < |apps| :: apps[i].id != apps[j].id
  }

  lemma {:induction false} OnlyUsableEffect(apps: seq<App>)
    ensures forall a :: a in OnlyUsable(apps) <==> a in apps && Usable(a)
  {
    if apps != [] {
      OnlyUsableEffect(apps[..|apps| - 1]);
      assert apps == apps[..|apps| - 1] + [apps[|apps| - 1]];
    }
  }

  lemma IdsSnoc(apps: seq<App>, last: App)
    ensures Ids(apps + [last]) == Ids(apps) + {last.id}
  {
  }

  lemma {:induction false} FirstPerIdMembers(apps: seq<App>)
    ensures var r := FirstPerId(apps); OnePerId(r) && Ids(r) == Ids(apps) && forall x | x in r :: x in apps
  {
    if apps != [] {
      var init, last := apps[..|apps| - 1], apps[|apps| - 1];
      FirstPerIdMembers(init);
      assert apps == init + [last];
      IdsSnoc(init, last);
      IdsSnoc(FirstPerId(init), last);
      assert forall i | 0 <= i < |FirstPerId(init)| :: FirstPerId(init)[i].id in Ids(FirstPerId(init));
    }
  }

  lemma LastIsGreatest(le: (App, App) -> bool, apps: seq<App>, a: App)
    requires Sorted(le, apps) && a in apps && le(a, a)
    ensures le(a, apps[|apps| - 1])
  {
    var i :| 0 <= i < |apps| && apps[i] == a;
  }

  lemma {:induction false} FirstPerIdSorted(le: (App, App) -> bool, apps: seq<App>)
    requires Sorted(le, apps) && forall a :: le(a, a)
    ensures Sorted(le, FirstPerId(apps))
  {
    if apps != [] {
      var init, last := apps[..|apps| - 1], apps[|apps| - 1];
      FirstPerIdSorted(le, init);
      FirstPerIdMembers(init);
      forall i | 0 <= i < |FirstPerId(init)| ensures le(FirstPerId(init)[i], last) {
        assert FirstPerId(init)[i] in init;
        LastIsGreatest(le, apps, FirstPerId(init)[i]);
      }
    }
  }

  /** Keeping the first of each id in a sorted list keeps the least of each id. */
  lemma {:induction false} FirstPerIdLeast(le: (App, App) -> bool, apps: seq<App>, x: App, a: App)
    requires Sorted(le, apps) && le(x, x)
    requires x in FirstPerId(apps) && a in apps && x.id == a.id
    ensures le(x, a)
  {
    var init, last := apps[..|apps| - 1], apps[|apps| - 1];
    assert apps == init + [last];
    FirstPerIdMembers(apps);
    if a in init {
      assert a.id in Ids(init);
      FirstPerIdMembers(init);
      FirstPerIdLeast(le, init, x, a);
    } else {
      LastIsGreatest(le, apps, x);
    }
  }

  /**
   * For every list of handlers: one entry per usable id and no other id, in sorted order, each entry a usable one
   * from the list that is least among those with its id; so it is a default one whenever there is one.
   */
  lemma DiscoveryIsRight(lower: string -> string, apps: seq<App>)
    ensures var r := Discovered(lower, apps);
      && OnePerId(r) && Sorted(ByKey(lower), r)
      && (forall x | x in r :: x in apps && Usable(x))
      && (forall a | a in apps && Usable(a) ::
            exists x :: x in r && x.id == a.id && KeyLe(KeyOf(lower, x), KeyOf(lower, a)) &&
                        (a.isDefault ==> x.isDefault))
  {
    var usable := OnlyUsable(apps);
    var sorted := Sort(lower, usable);
    OnlyUsableEffect(apps);
    SortEffect(lower, usable);
    FirstPerIdMembers(sorted);
    var le := ByKey(lower);
    forall a ensures le(a, a) {
      KeyOrder(KeyOf(lower, a), KeyOf(lower, a), KeyOf(lower, a));
    }
    FirstPerIdSorted(le, sorted);
    SameMembers(sorted, usable);
    var r := Discovered(lower, apps);
    forall a | a in apps && Usable(a)
      ensures exists x :: x in r && x.id == a.id && KeyLe(KeyOf(lower, x), KeyOf(lower, a)) &&
                          (a.isDefault ==> x.isDefault)
    {
      assert a in sorted && a.id in Ids(sorted);
      assert a.id in Ids(r);
      var x :| x in r && x.id == a.id;
      FirstPerIdLeast(le, sorted, x, a);
      assert le(x, a);
    }
  }

  lemma SameMembers(a: seq<App>, b: seq<App>)
    requires multiset(a) == multiset(b)
    ensures forall x :: x in a <==> x in b
  {
    forall x ensures x in a <==> x in b {
      assert x in a <==> x in multiset(a);
      assert x in b <==> x in multiset(b);
    }
  }

  /** The two `retain` passes around the sort; the second grows a set of seen ids. */
  method Discover(lower: string -> string, found: seq<App>) returns (applications: seq<App>)
    ensures applications == Discovered(lower, found)
  {
    var usable: seq<App> := [];
    for i := 0 to |found|
      invariant usable == OnlyUsable(found[..i])
    {
      assert found[..i + 1][..i] == found[..i];
      if found[i].id != "" && TrimSpace(found[i].name) != "" {
        usable := usable + [found[i]];
      }
    }
    assert found[..|found|] == found;
    var sorted := Sort(lower, usable);
    applications := [];
    var ids: set<string> := {};
    for i := 0 to |sorted|
      invariant ids == Ids(sorted[..i])
      invariant applications == FirstPerId(sorted[..i])
    {
      assert sorted[..i + 1] == sorted[..i] + [sorted[i]];
      assert Ids(sorted[..i + 1]) == Ids(sorted[..i]) + {sorted[i].id};
      if sorted[i].id !in ids {
        ids := ids + {sorted[i].id};
        applications := applications + [sorted[i]];
      }
    }
    assert sorted[..|sorted|] == sorted;
  }

  // ---------- on the fields ----------

  /** Lexicographic order: a prefix, or smaller at the first difference. */
  ghost predicate Lexicographic(a: string, b: string) {
    a <= b || exists k: nat :: k < |a| && k < |b| && a[..k] == b[..k] && a[k] < b[k]
  }

  lemma {:induction false} TextLeExactly(a: string, b: string)
    ensures TextLe(a, b) <==> Lexicographic(a, b)
  {
    if a != "" && b != "" {
      TextLeExactly(a[1..], b[1..]);
      if a[0] < b[0] {
        assert a[..0] == b[..0];
      } else if a[0] == b[0] {
        LexicographicTail(a, b);
      } else {
        assert a[0] != b[0];
      }
    }
  }

  lemma LexicographicTail(a: string, b: string)
    requires a != "" && b != "" && a[0] == b[0]
    ensures Lexicographic(a, b) <==> Lexicographic(a[1..], b[1..])
  {
    var x, y := a[1..], b[1..];
    assert a == [a[0]] + x && b == [b[0]] + y;
    if k: nat :| k < |x| && k < |y| && x[..k] == y[..k] && x[k] < y[k] {
      assert a[..k + 1] == [a[0]] + x[..k] && b[..k + 1] == [b[0]] + y[..k];
    }
    if k: nat :| k < |a| && k < |b| && a[..k] == b[..k] && a[k] < b[k] {
      assert x[..k - 1] == a[..k][1..] && y[..k - 1] == b[..k][1..];
    }
  }

  /** Defaults come first; among equals in that, lower-cased names are in order, and ids break ties. */
  ghost predicate InOrder(lower: string -> string, a: App, b: App) {
    if a.isDefault != b.isDefault then a.isDefault
    else if lower(a.name) != lower(b.name) then Lexicographic(lower(a.name), lower(b.name))
    else Lexicographic(a.id, b.id)
  }

  /** The result on the fields of its entries: their order, and which entries can be chosen from at all. */
  lemma DiscoveredInOrder(lower: string -> string, apps: seq<App>)
    ensures var r := Discovered(lower, apps);
      && (forall i, j | 0 <= i < j < |r| :: InOrder(lower, r[i], r[j]) && r[i].id != r[j].id)
      && (forall x | x in r :: x in apps && x.id != "" && !AllSpace(x.name))
      && (forall a | a in apps && a.id != "" && !AllSpace(a.name) ::
            exists x :: x in r && x.id == a.id && InOrder(lower, x, a))
  {
    var r := Discovered(lower, apps);
    DiscoveryIsRight(lower, apps);
    forall a ensures Usable(a) <==> a.id != "" && !AllSpace(a.name) {
      TrimSpaceEmptyExactly(a.name);
    }
    forall i, j | 0 <= i < j < |r| ensures InOrder(lower, r[i], r[j]) && r[i].id != r[j].id {
      assert ByKey(lower)(r[i], r[j]);
      KeyLeIsInOrder(lower, r[i], r[j]);
    }
    forall a | a in apps && a.id != "" && !AllSpace(a.name)
      ensures exists x :: x in r && x.id == a.id && InOrder(lower, x, a)
    {
      assert Usable(a);
      var x :| x in r && x.id == a.id && KeyLe(KeyOf(lower, x), KeyOf(lower, a));
      KeyLeIsInOrder(lower, x, a);
    }
  }

  lemma KeyLeIsInOrder(lower: string -> string, a: App, b: App)
    ensures KeyLe(KeyOf(lower, a), KeyOf(lower, b)) <==> InOrder(lower, a, b)
  {
    TextLeExactly(lower(a.name), lower(b.name));
    TextLeExactly(a.id, b.id);
  }
}
