/** The "lazy JNI" export action of the decompiler GUI (LazyJniAction.start):
    collect the native methods of every decompiled class, group the
    overloads of each method by full name, and build a map from each
    method's native symbol name to its MethodInfo record. */
module LazyJni {

  /** A decompiled method, reduced to what the export looks at: its full
      name (declaring class and method name, the grouping key), whether its
      access flags say `native`, and the rest of its signature, which is
      carried along unchanged into the exported record. */
  datatype JavaMethod = JavaMethod(fullName: string, isNative: bool, signature: string)

  /** The record built for one native method (`new MethodInfo(mth)`). */
  datatype MethodInfo = MethodInfo(javaMethod: JavaMethod)

  /** `MethodInfo.getNativeName(groupKey, isOverload)`. Its code is not part
      of this model, so the export takes it as a parameter about which
      nothing is assumed. */
  type NativeNamer = (MethodInfo, string, bool) -> string

  /** One `result.put(nativeName, m)`, in the order the export performs them. */
  datatype Entry = Entry(name: string, info: MethodInfo)

  /** The outcome of the export: the finished result map, or the first
      native name that the uniqueness assertion finds already taken. */
  datatype Export =
    | Exported(result: map<string, MethodInfo>)
    | Collision(nativeName: string, previous: MethodInfo, incoming: MethodInfo)

  // ---------------------------------------------------------------------
  // Reference definitions

  /** All methods of all classes, in the order the two for-loops visit them. */
  function Flatten(classes: seq<seq<JavaMethod>>): seq<JavaMethod>
  {
    if classes == [] then [] else Flatten(classes[..|classes| - 1]) + classes[|classes| - 1]
  }

  /** The records of the native methods of `ms`, in order. */
  function NativeInfos(ms: seq<JavaMethod>): seq<MethodInfo>
  {
    if ms == [] then []
    else (if ms[0].isNative then [MethodInfo(ms[0])] else []) + NativeInfos(ms[1..])
  }

  /** The records of the native methods of `ms` whose full name is `key`, in order. */
  function Members(ms: seq<JavaMethod>, key: string): seq<MethodInfo>
  {
    if ms == [] then []
    else Selected(ms[0], key) + Members(ms[1..], key)
  }

  /** `m` as a member of the group `key`, if it belongs there. */
  function Selected(m: JavaMethod, key: string): seq<MethodInfo>
  {
    if m.isNative && m.fullName == key then [MethodInfo(m)] else []
  }

  /** The full names of the native methods of `ms`. */
  function NativeKeys(ms: seq<JavaMethod>): set<string>
  {
    set m | m in ms && m.isNative :: m.fullName
  }

  /** What `methodInfos` should hold: one group per full name of a native
      method, holding exactly the native methods of that name in order. */
  function Grouping(ms: seq<JavaMethod>): map<string, seq<MethodInfo>>
  {
    map k | k in NativeKeys(ms) :: Members(ms, k)
  }

  /** Two different native methods of `ms` share the full name `key`. */
  ghost predicate Overloaded(ms: seq<JavaMethod>, key: string)
  {
    exists i, j :: 0 <= i < j < |ms| && ms[i].isNative && ms[j].isNative && ms[i].fullName == key && ms[j].fullName == key
  }

  /** `order` lists every key of `keys` exactly once (what a HashMap's
      entry iterator promises; the order itself is left open). */
  ghost predicate Enumerates(order: seq<string>, keys: set<string>)
  {
    && (forall k :: k in order <==> k in keys)
    && (forall i, j :: 0 <= i < j < |order| ==> order[i] != order[j])
  }

  /** The insertions made for one group: every member gets the group's key
      and the group's overload flag. */
  function GroupEntries(key: string, members: seq<MethodInfo>, namer: NativeNamer): seq<Entry>
  {
    var isOverload := |members| > 1;
    seq(|members|, j requires 0 <= j < |members| => Entry(namer(members[j], key, isOverload), members[j]))
  }

  /** The insertions made for the groups listed in `order`, in that order. */
  function Entries(groups: map<string, seq<MethodInfo>>, order: seq<string>, namer: NativeNamer): seq<Entry>
    requires forall k :: k in order ==> k in groups
  {
    if order == [] then []
    else
      var key := order[|order| - 1];
      Entries(groups, order[..|order| - 1], namer) + GroupEntries(key, groups[key], namer)
  }

  /** The records carried by a list of insertions. */
  function Infos(es: seq<Entry>): seq<MethodInfo>
  {
    seq(|es|, i requires 0 <= i < |es| => es[i].info)
  }

  /** The map that the insertions `es` build, performed one after the other. */
  function ToMap(es: seq<Entry>): map<string, MethodInfo>
  {
    if es == [] then map[] else ToMap(es[..|es| - 1])[es[|es| - 1].name := es[|es| - 1].info]
  }

  /** No two insertions use the same native name. */
  predicate DistinctNames(es: seq<Entry>)
  {
    forall i, j :: 0 <= i < j < |es| ==> es[i].name != es[j].name
  }

  /** `es` binds `name` to `previous` and, later, to `incoming`: the pair
      the assert in `start` trips over. */
  ghost predicate Clashes(es: seq<Entry>, name: string, previous: MethodInfo, incoming: MethodInfo)
  {
    exists i, j :: 0 <= i < j < |es| && es[i] == Entry(name, previous) && es[j] == Entry(name, incoming)
  }

  // ---------------------------------------------------------------------
  // Grouping

  lemma {:induction false} MembersSnoc(ms: seq<JavaMethod>, m: JavaMethod, key: string)
    ensures Members(ms + [m], key)
         == Members(ms, key) + Selected(m, key)
  {
    var longer := ms + [m];
    if ms == [] {
      assert longer[1..] == [];
    } else {
      var tail := ms[1..];
      assert longer[0] == ms[0] && longer[1..] == tail + [m];
      calc {
        Members(longer, key);
        Selected(ms[0], key) + Members(tail + [m], key);
        { MembersSnoc(tail, m, key); }
        Selected(ms[0], key) + (Members(tail, key) + Selected(m, key));
        (Selected(ms[0], key) + Members(tail, key)) + Selected(m, key);
        Members(ms, key) + Selected(m, key);
      }
    }
  }

  /** Every record in a group is a native method whose full name is the group's key. */
  lemma {:induction false} MembersKeyed(ms: seq<JavaMethod>, key: string)
    ensures forall x :: x in Members(ms, key) ==> x.javaMethod in ms && x.javaMethod.isNative && x.javaMethod.fullName == key
  {
    if ms != [] {
      MembersKeyed(ms[1..], key);
    }
  }

  /** Some native method of `ms` has the full name `key`. */
  ghost predicate Occurs(ms: seq<JavaMethod>, key: string)
  {
    exists i :: 0 <= i < |ms| && ms[i].isNative && ms[i].fullName == key
  }

  lemma OccursKeys(ms: seq<JavaMethod>, key: string)
    ensures Occurs(ms, key) <==> key in NativeKeys(ms)
  {
    if Occurs(ms, key) {
      var i :| 0 <= i < |ms| && ms[i].isNative && ms[i].fullName == key;
      assert ms[i] in ms;
    }
    if key in NativeKeys(ms) {
      var m :| m in ms && m.isNative && m.fullName == key;
      var i :| 0 <= i < |ms| && ms[i] == m;
      assert Occurs(ms, key);
    }
  }

  lemma {:induction false} MembersOccurs(ms: seq<JavaMethod>, key: string)
    ensures |Members(ms, key)| > 0 <==> Occurs(ms, key)
  {
    if ms != [] {
      var tail := ms[1..];
      MembersOccurs(tail, key);
      if Occurs(ms, key) && !(ms[0].isNative && ms[0].fullName == key) {
        var i :| 0 <= i < |ms| && ms[i].isNative && ms[i].fullName == key;
        assert tail[i - 1] == ms[i];
      }
      if Occurs(tail, key) {
        var i :| 0 <= i < |tail| && tail[i].isNative && tail[i].fullName == key;
        assert ms[i + 1] == tail[i];
      }
    }
  }

  /** A group is non-empty exactly when some native method has its name. */
  lemma MembersNonEmpty(ms: seq<JavaMethod>, key: string)
    ensures |Members(ms, key)| > 0 <==> key in NativeKeys(ms)
  {
    MembersOccurs(ms, key);
    OccursKeys(ms, key);
  }

  /** The overload flag, `size() > 1`, holds exactly when two different
      native methods share the group's name. */
  lemma {:induction false} MembersOverloaded(ms: seq<JavaMethod>, key: string)
    ensures |Members(ms, key)| > 1 <==> Overloaded(ms, key)
  {
    if ms != [] {
      var tail := ms[1..];
      MembersOverloaded(tail, key);
      MembersOccurs(tail, key);
      var hit := ms[0].isNative && ms[0].fullName == key;
      assert |Members(ms, key)| == (if hit then 1 else 0) + |Members(tail, key)|;
      if Overloaded(ms, key) {
        var i, j :| 0 <= i < j < |ms| && ms[i].isNative && ms[j].isNative && ms[i].fullName == key && ms[j].fullName == key;
        assert tail[j - 1] == ms[j];
        if i == 0 {
          assert Occurs(tail, key);
        } else {
          assert tail[i - 1] == ms[i];
          assert Overloaded(tail, key);
        }
      }
      if hit && Occurs(tail, key) {
        var j :| 0 <= j < |tail| && tail[j].isNative && tail[j].fullName == key;
        assert ms[j + 1] == tail[j];
        assert Overloaded(ms, key);
      }
      if Overloaded(tail, key) {
        var i, j :| 0 <= i < j < |tail| && tail[i].isNative && tail[j].isNative && tail[i].fullName == key && tail[j].fullName == key;
        assert ms[i + 1] == tail[i] && ms[j + 1] == tail[j];
        assert Overloaded(ms, key);
      }
    }
  }

  /** Visiting one more method: a non-native one changes nothing; the first
      native method of a name creates a one-element group, a later one is
      appended to the end of its group; no other group changes. */
  lemma GroupingSnoc(ms: seq<JavaMethod>, m: JavaMethod)
    ensures Grouping(ms + [m])
         == (var g := Grouping(ms);
             if !m.isNative then g
             else if m.fullName in g then g[m.fullName := g[m.fullName] + [MethodInfo(m)]]
             else g[m.fullName := [MethodInfo(m)]])
  {
    var g, g' := Grouping(ms), Grouping(ms + [m]);
    var h := if !m.isNative then g
             else if m.fullName in g then g[m.fullName := g[m.fullName] + [MethodInfo(m)]]
             else g[m.fullName := [MethodInfo(m)]];
    assert NativeKeys(ms + [m]) == NativeKeys(ms) + (if m.isNative then {m.fullName} else {}) by {
      assert forall x :: x in ms + [m] <==> x in ms || x == m;
    }
    assert g'.Keys == h.Keys;
    forall k | k in g'
      ensures g'[k] == h[k]
    {
      MembersSnoc(ms, m, k);
      if m.isNative && k == m.fullName && k !in g {
        MembersNonEmpty(ms, k);
      }
    }
  }

  // ---------------------------------------------------------------------
  // Nothing lost, nothing duplicated

  lemma {:induction false} NativeInfosMembers(ms: seq<JavaMethod>)
    ensures forall x :: x in NativeInfos(ms) <==> x.javaMethod in ms && x.javaMethod.isNative
  {
    if ms != [] {
      NativeInfosMembers(ms[1..]);
      assert forall m :: m in ms <==> m == ms[0] || m in ms[1..];
    }
  }

  /** A group holds each record as often as the native methods hold it,
      provided the record's name is the group's key, and never otherwise. */
  lemma {:induction false} MembersCount(ms: seq<JavaMethod>, key: string, x: MethodInfo)
    ensures multiset(Members(ms, key))[x]
         == if x.javaMethod.fullName == key then multiset(NativeInfos(ms))[x] else 0
  {
    if ms != [] {
      MembersCount(ms[1..], key, x);
    }
  }

  lemma InfosAppend(a: seq<Entry>, b: seq<Entry>)
    ensures Infos(a + b) == Infos(a) + Infos(b)
  {
  }

  lemma GroupInfos(key: string, members: seq<MethodInfo>, namer: NativeNamer)
    ensures Infos(GroupEntries(key, members, namer)) == members
  {
  }

  /** The records of the groups in `order`, one more group at a time. */
  lemma EntriesInfosSnoc(groups: map<string, seq<MethodInfo>>, order: seq<string>, namer: NativeNamer)
    requires forall k :: k in order ==> k in groups
    requires order != []
    ensures multiset(Infos(Entries(groups, order, namer)))
         == multiset(Infos(Entries(groups, order[..|order| - 1], namer))) + multiset(groups[order[|order| - 1]])
  {
    var key := order[|order| - 1];
    var a, b := Entries(groups, order[..|order| - 1], namer), GroupEntries(key, groups[key], namer);
    InfosAppend(a, b);
    GroupInfos(key, groups[key], namer);
  }

  /** Over groups that each hold the native methods of their key, the
      insertions for the keys in `order` carry each record as often as the
      native methods do if its name is listed, and never otherwise. */
  lemma {:induction false} EntriesCount(ms: seq<JavaMethod>, groups: map<string, seq<MethodInfo>>, order: seq<string>,
                                        namer: NativeNamer, x: MethodInfo)
    requires forall k :: k in order ==> k in groups && groups[k] == Members(ms, k)
    requires forall i, j :: 0 <= i < j < |order| ==> order[i] != order[j]
    ensures multiset(Infos(Entries(groups, order, namer)))[x]
         == if x.javaMethod.fullName in order then multiset(NativeInfos(ms))[x] else 0
  {
    if order != [] {
      var init, key := order[..|order| - 1], order[|order| - 1];
      var name := x.javaMethod.fullName;
      EntriesCount(ms, groups, init, namer, x);
      MembersCount(ms, key, x);
      EntriesInfosSnoc(groups, order, namer);
      assert order == init + [key];
      assert name in order <==> name in init || name == key;
      forall i | 0 <= i < |init|
        ensures init[i] != key
      {
        assert init[i] == order[i];
      }
    }
  }

  /** The records inserted by the export are exactly the native methods:
      the same multiset, so none is lost, none is repeated and no
      non-native method is among them. */
  lemma ExportIsPermutation(ms: seq<JavaMethod>, order: seq<string>, namer: NativeNamer)
    requires Enumerates(order, NativeKeys(ms))
    ensures multiset(Infos(Entries(Grouping(ms), order, namer))) == multiset(NativeInfos(ms))
    ensures |Entries(Grouping(ms), order, namer)| == |NativeInfos(ms)|
  {
    var es := Entries(Grouping(ms), order, namer);
    NativeInfosMembers(ms);
    forall x
      ensures multiset(Infos(es))[x] == multiset(NativeInfos(ms))[x]
    {
      EntriesCount(ms, Grouping(ms), order, namer, x);
      if x in NativeInfos(ms) {
        assert x.javaMethod.fullName in NativeKeys(ms);
      }
    }
    assert multiset(Infos(es)) == multiset(NativeInfos(ms));
    assert |Infos(es)| == |multiset(Infos(es))|;
  }

  /** Every insertion names a native method of the group's key, with the
      name computed from that record, its key, and whether two native
      methods share that key. */
  lemma {:induction false} EntriesNamed(ms: seq<JavaMethod>, order: seq<string>, namer: NativeNamer)
    requires forall k :: k in order ==> k in NativeKeys(ms)
    ensures forall e :: e in Entries(Grouping(ms), order, namer) ==>
              && e.info in NativeInfos(ms)
              && e.name == namer(e.info, e.info.javaMethod.fullName, Overloaded(ms, e.info.javaMethod.fullName))
  {
    if order != [] {
      var g := Grouping(ms);
      var init, key := order[..|order| - 1], order[|order| - 1];
      EntriesNamed(ms, init, namer);
      MembersKeyed(ms, key);
      MembersOverloaded(ms, key);
      NativeInfosMembers(ms);
      forall e | e in GroupEntries(key, g[key], namer)
        ensures e.info in NativeInfos(ms)
        ensures e.name == namer(e.info, e.info.javaMethod.fullName, Overloaded(ms, e.info.javaMethod.fullName))
      {
        var j :| 0 <= j < |g[key]| && GroupEntries(key, g[key], namer)[j] == e;
        assert e.info == g[key][j];
      }
    }
  }

  // ---------------------------------------------------------------------
  // The result map

  lemma {:induction false} ToMapKeys(es: seq<Entry>)
    ensures forall n :: n in ToMap(es) <==> exists i :: 0 <= i < |es| && es[i].name == n
  {
    if es != [] {
      var init := es[..|es| - 1];
      ToMapKeys(init);
      forall n | exists i :: 0 <= i < |es| && es[i].name == n
        ensures n in ToMap(es)
      {
        var i :| 0 <= i < |es| && es[i].name == n;
        if i < |init| {
          assert init[i] == es[i];
        }
      }
    }
  }

  /** With distinct names the result has one entry per insertion, and each
      name maps to the record inserted under it. */
  lemma {:induction false} ToMapDistinct(es: seq<Entry>)
    requires DistinctNames(es)
    ensures |ToMap(es)| == |es|
    ensures forall i :: 0 <= i < |es| ==> es[i].name in ToMap(es) && ToMap(es)[es[i].name] == es[i].info
  {
    if es != [] {
      var init, last := es[..|es| - 1], es[|es| - 1];
      ToMapDistinct(init);
      ToMapKeys(init);
      forall i | 0 <= i < |init|
        ensures init[i].name != last.name
      {
        assert init[i] == es[i];
      }
      forall i | 0 <= i < |es| - 1
        ensures es[i].name in ToMap(es) && ToMap(es)[es[i].name] == es[i].info
      {
        assert init[i] == es[i];
      }
    }
  }

  lemma ToMapSnoc(es: seq<Entry>, e: Entry)
    ensures ToMap(es + [e]) == ToMap(es)[e.name := e.info]
  {
    assert (es + [e])[..|es|] == es;
  }

  lemma DistinctSnoc(es: seq<Entry>, e: Entry)
    requires DistinctNames(es)
    requires forall i :: 0 <= i < |es| ==> es[i].name != e.name
    ensures DistinctNames(es + [e])
  {
    var next := es + [e];
    forall i, j | 0 <= i < j < |next|
      ensures next[i].name != next[j].name
    {
      assert next[i] == es[i];
    }
  }

  /** One more insertion: the name is already a key exactly when an earlier
      insertion used it (and then that insertion is the one the map holds);
      otherwise the map gains that binding. */
  lemma InsertStep(done: seq<Entry>, e: Entry)
    requires DistinctNames(done)
    ensures e.name in ToMap(done) <==> !DistinctNames(done + [e])
    ensures e.name in ToMap(done) ==> exists i :: 0 <= i < |done| && done[i] == Entry(e.name, ToMap(done)[e.name])
    ensures ToMap(done + [e]) == ToMap(done)[e.name := e.info]
  {
    ToMapSnoc(done, e);
    ToMapKeys(done);
    if e.name in ToMap(done) {
      var i :| 0 <= i < |done| && done[i].name == e.name;
      ToMapDistinct(done);
      var next := done + [e];
      assert next[i] == done[i] && next[|done|] == e;
      assert done[i] == Entry(e.name, ToMap(done)[e.name]);
    } else {
      DistinctSnoc(done, e);
    }
  }

  lemma EntriesStep(groups: map<string, seq<MethodInfo>>, order: seq<string>, namer: NativeNamer, n: nat)
    requires forall k :: k in order ==> k in groups
    requires n < |order|
    ensures Entries(groups, order[..n + 1], namer)
         == Entries(groups, order[..n], namer) + GroupEntries(order[n], groups[order[n]], namer)
  {
    assert order[..n + 1][..n] == order[..n];
  }

  /** Placing `ge[n]` after `done + ge[..n]` under a fresh name keeps the
      names distinct and adds that one binding. */
  lemma PlaceFresh(done: seq<Entry>, ge: seq<Entry>, n: nat)
    requires n < |ge| && DistinctNames(done + ge[..n]) && ge[n].name !in ToMap(done + ge[..n])
    ensures DistinctNames(done + ge[..n + 1])
    ensures ToMap(done + ge[..n + 1]) == ToMap(done + ge[..n])[ge[n].name := ge[n].info]
  {
    assert done + ge[..n + 1] == (done + ge[..n]) + [ge[n]];
    InsertStep(done + ge[..n], ge[n]);
  }

  /** Placing `ge[n]` under a name already bound clashes with the entry that
      bound it, in the whole of `done + ge`. */
  lemma PlaceClash(done: seq<Entry>, ge: seq<Entry>, n: nat)
    requires n < |ge| && DistinctNames(done + ge[..n]) && ge[n].name in ToMap(done + ge[..n])
    ensures Clashes(done + ge, ge[n].name, ToMap(done + ge[..n])[ge[n].name], ge[n].info)
    ensures !DistinctNames(done + ge)
  {
    var placed := done + ge[..n];
    InsertStep(placed, ge[n]);
    var i :| 0 <= i < |placed| && placed[i] == Entry(ge[n].name, ToMap(placed)[ge[n].name]);
    assert (done + ge)[i] == placed[i];
    assert (done + ge)[|placed|] == ge[n];
  }

  lemma {:induction false} EntriesPrefix(groups: map<string, seq<MethodInfo>>, order: seq<string>, namer: NativeNamer, n: nat)
    requires forall k :: k in order ==> k in groups
    requires n <= |order|
    ensures Entries(groups, order[..n], namer) <= Entries(groups, order, namer)
  {
    if n < |order| {
      var init := order[..|order| - 1];
      assert init[..n] == order[..n];
      EntriesPrefix(groups, init, namer, n);
    } else {
      assert order[..n] == order;
    }
  }

  /** When the export finishes, the result has one entry per native method,
      holds every native method and nothing else, and each key is the name
      computed for the record it maps to. */
  lemma ExportedResult(ms: seq<JavaMethod>, order: seq<string>, namer: NativeNamer)
    requires Enumerates(order, NativeKeys(ms))
    requires DistinctNames(Entries(Grouping(ms), order, namer))
    ensures var result := ToMap(Entries(Grouping(ms), order, namer));
            && |result| == |NativeInfos(ms)|
            && (forall x :: x in NativeInfos(ms) ==> x in result.Values)
            && (forall n :: n in result ==>
                  && result[n] in NativeInfos(ms)
                  && n == namer(result[n], result[n].javaMethod.fullName, Overloaded(ms, result[n].javaMethod.fullName)))
  {
    var es := Entries(Grouping(ms), order, namer);
    var result := ToMap(es);
    EntriesNamed(ms, order, namer);
    ExportIsPermutation(ms, order, namer);
    ToMapDistinct(es);
    ToMapKeys(es);
    forall x | x in NativeInfos(ms)
      ensures x in result.Values
    {
      assert x in multiset(Infos(es));
      var j :| 0 <= j < |Infos(es)| && Infos(es)[j] == x;
      assert result[es[j].name] == x;
    }
    forall n | n in result
      ensures result[n] in NativeInfos(ms)
      ensures n == namer(result[n], result[n].javaMethod.fullName, Overloaded(ms, result[n].javaMethod.fullName))
    {
      var i :| 0 <= i < |es| && es[i].name == n;
      assert es[i] in es;
    }
  }

  /** A collision is between two native methods whose computed names agree. */
  lemma CollidingEntries(ms: seq<JavaMethod>, order: seq<string>, namer: NativeNamer, name: string, previous: MethodInfo, incoming: MethodInfo)
    requires Enumerates(order, NativeKeys(ms))
    requires Clashes(Entries(Grouping(ms), order, namer), name, previous, incoming)
    ensures previous in NativeInfos(ms) && incoming in NativeInfos(ms)
    ensures name == namer(previous, previous.javaMethod.fullName, Overloaded(ms, previous.javaMethod.fullName))
    ensures name == namer(incoming, incoming.javaMethod.fullName, Overloaded(ms, incoming.javaMethod.fullName))
  {
    var es := Entries(Grouping(ms), order, namer);
    EntriesNamed(ms, order, namer);
    var i, j :| 0 <= i < j < |es| && es[i] == Entry(name, previous) && es[j] == Entry(name, incoming);
    assert es[i] in es && es[j] in es;
  }

  /** Without native methods there are no groups and nothing to insert. */
  lemma NoNatives(ms: seq<JavaMethod>, order: seq<string>, namer: NativeNamer)
    requires Enumerates(order, NativeKeys(ms))
    requires NativeInfos(ms) == []
    ensures Grouping(ms) == map[]
    ensures Entries(Grouping(ms), order, namer) == []
  {
    NativeInfosMembers(ms);
    assert NativeKeys(ms) == {} by {
      forall m | m in ms && m.isNative
        ensures MethodInfo(m) in NativeInfos(ms)
      {
      }
    }
    ExportIsPermutation(ms, order, namer);
  }

  // ---------------------------------------------------------------------
  // The action

  /** The two nested for-loops over classes and their methods that fill
      `methodInfos`. */
  method GroupNatives(classes: seq<seq<JavaMethod>>) returns (methodInfos: map<string, seq<MethodInfo>>)
    ensures methodInfos == Grouping(Flatten(classes))
  {
    methodInfos := map[];
    var c := 0;
    while c < |classes|
      invariant 0 <= c <= |classes|
      invariant methodInfos == Grouping(Flatten(classes[..c]))
    {
      var klass := classes[c];
      assert Flatten(classes[..c]) + klass[..0] == Flatten(classes[..c]);
      var j := 0;
      while j < |klass|
        invariant 0 <= j <= |klass|
        invariant methodInfos == Grouping(Flatten(classes[..c]) + klass[..j])
      {
        var mth := klass[j];
        GroupingSnoc(Flatten(classes[..c]) + klass[..j], mth);
        if mth.isNative {
          var key := mth.fullName;
          if key !in methodInfos {
            methodInfos := methodInfos[key := [MethodInfo(mth)]];
          } else {
            methodInfos := methodInfos[key := methodInfos[key] + [MethodInfo(mth)]];
          }
        }
        assert klass[..j + 1] == klass[..j] + [mth];
        assert Flatten(classes[..c]) + klass[..j + 1] == Flatten(classes[..c]) + klass[..j] + [mth];
        j := j + 1;
      }
      assert klass[..j] == klass;
      assert classes[..c + 1][..c] == classes[..c];
      c := c + 1;
    }
    assert classes[..c] == classes;
  }

  /** The for-loop over the members of one group, continuing after the
      insertions `done` already made into `result`. The uniqueness
      assertion becomes a Collision. */
  method InsertGroup(result: map<string, MethodInfo>, ghost done: seq<Entry>, name: string,
                     overloadMethods: seq<MethodInfo>, namer: NativeNamer)
    returns (outcome: Export)
    requires DistinctNames(done) && result == ToMap(done)
    ensures outcome.Exported? <==> DistinctNames(done + GroupEntries(name, overloadMethods, namer))
    ensures outcome.Exported? ==> outcome.result == ToMap(done + GroupEntries(name, overloadMethods, namer))
    ensures outcome.Collision? ==>
              Clashes(done + GroupEntries(name, overloadMethods, namer), outcome.nativeName, outcome.previous, outcome.incoming)
  {
    var isOverload := |overloadMethods| > 1;
    ghost var ge := GroupEntries(name, overloadMethods, namer);
    var current := result;
    var mi := 0;
    assert done + ge[..0] == done;
    while mi < |overloadMethods|
      invariant 0 <= mi <= |overloadMethods|
      invariant DistinctNames(done + ge[..mi])
      invariant current == ToMap(done + ge[..mi])
    {
      var m := overloadMethods[mi];
      var nativeName := namer(m, name, isOverload);
      assert ge[mi] == Entry(nativeName, m);
      if nativeName in current {
        PlaceClash(done, ge, mi);
        return Collision(nativeName, current[nativeName], m);
      }
      PlaceFresh(done, ge, mi);
      current := current[nativeName := m];
      mi := mi + 1;
    }
    assert ge[..mi] == ge;
    outcome := Exported(current);
  }

  /** Two entries with one name among the first `n` groups still clash
      once every group is placed. */
  lemma ClashPersists(groups: map<string, seq<MethodInfo>>, order: seq<string>, namer: NativeNamer, n: nat,
                      name: string, previous: MethodInfo, incoming: MethodInfo)
    requires forall k :: k in order ==> k in groups
    requires n <= |order|
    requires Clashes(Entries(groups, order[..n], namer), name, previous, incoming)
    ensures Clashes(Entries(groups, order, namer), name, previous, incoming)
    ensures !DistinctNames(Entries(groups, order, namer))
  {
    var p, es := Entries(groups, order[..n], namer), Entries(groups, order, namer);
    var i, j :| 0 <= i < j < |p| && p[i] == Entry(name, previous) && p[j] == Entry(name, incoming);
    EntriesPrefix(groups, order, namer, n);
    assert es[i] == p[i] && es[j] == p[j];
  }

  /** The while-loop over the groups, in the map's iteration order `order`,
      that fills `result`. */
  method BuildResult(methodInfos: map<string, seq<MethodInfo>>, order: seq<string>, namer: NativeNamer)
    returns (outcome: Export)
    requires Enumerates(order, methodInfos.Keys)
    ensures outcome.Exported? <==> DistinctNames(Entries(methodInfos, order, namer))
    ensures outcome.Exported? ==> outcome.result == ToMap(Entries(methodInfos, order, namer))
    ensures outcome.Collision? ==>
              Clashes(Entries(methodInfos, order, namer), outcome.nativeName, outcome.previous, outcome.incoming)
  {
    var result: map<string, MethodInfo> := map[];
    ghost var done: seq<Entry> := [];
    var oi := 0;
    while oi < |order|
      invariant 0 <= oi <= |order|
      invariant done == Entries(methodInfos, order[..oi], namer)
      invariant DistinctNames(done)
      invariant result == ToMap(done)
    {
      var name := order[oi];
      EntriesStep(methodInfos, order, namer, oi);
      var step := InsertGroup(result, done, name, methodInfos[name], namer);
      ghost var prefix := done + GroupEntries(name, methodInfos[name], namer);
      if step.Collision? {
        ClashPersists(methodInfos, order, namer, oi + 1, step.nativeName, step.previous, step.incoming);
        return step;
      }
      result := step.result;
      done := prefix;
      oi := oi + 1;
    }
    assert order[..oi] == order;
    outcome := Exported(result);
  }

  /** LazyJniAction.start without the file output: group, then build the
      result map. `order` is the iteration order of the grouping map. */
  method Start(classes: seq<seq<JavaMethod>>, order: seq<string>, namer: NativeNamer) returns (outcome: Export)
    requires Enumerates(order, NativeKeys(Flatten(classes)))
    ensures var ms := Flatten(classes);
            outcome.Exported? <==> DistinctNames(Entries(Grouping(ms), order, namer))
    ensures var ms := Flatten(classes);
            outcome.Exported? ==>
              && |outcome.result| == |NativeInfos(ms)|
              && (forall x :: x in NativeInfos(ms) ==> x in outcome.result.Values)
              && (forall n :: n in outcome.result ==>
                    && outcome.result[n] in NativeInfos(ms)
                    && n == namer(outcome.result[n], outcome.result[n].javaMethod.fullName,
                                  Overloaded(ms, outcome.result[n].javaMethod.fullName)))
    ensures var ms := Flatten(classes);
            outcome.Collision? ==>
              && Clashes(Entries(Grouping(ms), order, namer), outcome.nativeName, outcome.previous, outcome.incoming)
              && outcome.previous in NativeInfos(ms) && outcome.incoming in NativeInfos(ms)
              && outcome.nativeName == namer(outcome.previous, outcome.previous.javaMethod.fullName,
                                             Overloaded(ms, outcome.previous.javaMethod.fullName))
              && outcome.nativeName == namer(outcome.incoming, outcome.incoming.javaMethod.fullName,
                                             Overloaded(ms, outcome.incoming.javaMethod.fullName))
    ensures NativeInfos(Flatten(classes)) == [] ==> outcome == Exported(map[])
  {
    ghost var ms := Flatten(classes);
    var methodInfos := GroupNatives(classes);
    outcome := BuildResult(methodInfos, order, namer);
    if outcome.Exported? {
      ExportedResult(ms, order, namer);
    } else {
      CollidingEntries(ms, order, namer, outcome.nativeName, outcome.previous, outcome.incoming);
    }
    if NativeInfos(ms) == [] {
      NoNatives(ms, order, namer);
    }
  }
}
