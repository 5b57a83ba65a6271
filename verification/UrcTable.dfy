/**
 * The ten-slot table of unsolicited result code (URC) callbacks in src/sequans_controller.cpp.
 * Unregistering compares prefixes, and compares the stale bytes of inactive slots too.
 */
module UrcTable {
  import opened Bytes
  import opened CStrings

  const SLOTS: nat := 10
  const ID_SIZE: nat := 28

  /** A callback is identified by a number. A slot is active when its length is not zero. */
  datatype Urc = Urc(identifier: seq<byte>, length: byte, clear: bool, callback: Option<nat>)

  datatype Entry = Entry(clear: bool, callback: Option<nat>)

  // ----- the table -----

  ghost function Name(u: Urc): seq<byte> { CStr(u.identifier) }

  predicate Active(u: Urc) { u.length > 0 }

  ghost predicate ValidSlot(u: Urc) {
    |u.identifier| == ID_SIZE && 0 in u.identifier && (Active(u) ==> u.length == |Name(u)|)
  }

  /** An active slot's name occurs in no slot below it, not even as stale bytes. */
  ghost predicate Valid(t: seq<Urc>) {
    && |t| == SLOTS
    && (forall i :: 0 <= i < SLOTS ==> ValidSlot(t[i]))
    && (forall i, j :: 0 <= i < j < SLOTS && Active(t[j]) ==> Name(t[i]) != Name(t[j]))
  }

  /** What the loops over the table look for. */
  datatype Sought =
    | Holding(id: seq<byte>)    // registered under exactly this identifier
    | Free
    | Beginning(id: seq<byte>)  // bytes that begin with this identifier
    | Spelled(id: seq<byte>)    // of this length and with these bytes

  predicate Meets(u: Urc, what: Sought) {
    match what
    case Holding(id) => u.length as int == |id| && StrEqual(u.identifier, id)
    case Free => u.length == 0
    case Beginning(id) => MemEqual(u.identifier, id)
    case Spelled(id) => u.length as int == |id| && MemEqual(u.identifier, id)
  }

  /** The first such slot, or the number of slots. */
  ghost function First(t: seq<Urc>, what: Sought): (i: nat)
    ensures i <= |t| && (i < |t| ==> Meets(t[i], what)) && forall k :: 0 <= k < i ==> !Meets(t[k], what)
  {
    if t == [] || Meets(t[0], what) then 0 else 1 + First(t[1..], what)
  }

  ghost function Register(t: seq<Urc>, id: seq<byte>, callback: Option<nat>, clear: bool): (r: (seq<Urc>, bool))
    requires |t| == SLOTS && forall i :: 0 <= i < SLOTS ==> |t[i].identifier| == ID_SIZE
    ensures |r.0| == SLOTS
  {
    if |id| > ID_SIZE - 1 then (t, false)
    else
      var same, free := First(t, Holding(id)), First(t, Free);
      if same < SLOTS then (t[same := t[same].(callback := callback, clear := clear)], true)
      else if free < SLOTS then (t[free := Urc(StrCpy(t[free].identifier, id), |id|, clear, callback)], true)
      else (t, false)
  }

  ghost function Unregister(t: seq<Urc>, id: seq<byte>): (r: seq<Urc>)
    ensures |r| == |t|
  {
    if |id| > ID_SIZE - 1 then t
    else
      var i := First(t, Beginning(id));
      if i < |t| then t[i := t[i].(length := 0, callback := None)] else t
  }

  /** Which slot the receive interrupt picks for the identifier it parsed. */
  ghost function Lookup(t: seq<Urc>, id: seq<byte>): nat {
    First(t, Spelled(id))
  }

  // ----- the map the table stands for -----

  ghost function EntryOf(u: Urc): Entry { Entry(u.clear, u.callback) }

  ghost function Entries(t: seq<Urc>): map<seq<byte>, Entry> {
    if t == [] then map[]
    else
      var last := t[|t| - 1];
      var rest := Entries(t[..|t| - 1]);
      if Active(last) then rest[Name(last) := EntryOf(last)] else rest
  }

  ghost function ActiveCount(t: seq<Urc>): nat {
    if t == [] then 0 else ActiveCount(t[..|t| - 1]) + if Active(t[|t| - 1]) then 1 else 0
  }

  /** Active slots have distinct names. */
  ghost predicate Distinct(t: seq<Urc>) {
    forall i, j :: 0 <= i < j < |t| && Active(t[i]) && Active(t[j]) ==> Name(t[i]) != Name(t[j])
  }

  lemma {:induction false} EntryOfSlot(t: seq<Urc>, i: nat)
    requires Distinct(t) && i < |t| && Active(t[i])
    ensures Name(t[i]) in Entries(t) && Entries(t)[Name(t[i])] == EntryOf(t[i])
    decreases |t|
  {
    hide Name, EntryOf, Active;
    if i < |t| - 1 {
      EntryOfSlot(t[..|t| - 1], i);
    }
  }

  lemma {:induction false} SlotOfEntry(t: seq<Urc>, id: seq<byte>) returns (i: nat)
    requires id in Entries(t)
    ensures i < |t| && Active(t[i]) && Name(t[i]) == id
  {
    hide Name, EntryOf, Active;
    var last := t[|t| - 1];
    if Active(last) && Name(last) == id {
      i := |t| - 1;
    } else {
      i := SlotOfEntry(t[..|t| - 1], id);
    }
  }

  lemma {:induction false} EntryCount(t: seq<Urc>)
    requires Distinct(t)
    ensures |Entries(t)| == ActiveCount(t)
  {
    hide Name, EntryOf, Active;
    if t != [] {
      var rest, last := t[..|t| - 1], t[|t| - 1];
      EntryCount(rest);
      if Active(last) && Name(last) in Entries(rest) {
        var i := SlotOfEntry(rest, Name(last));
        assert false;
      }
    }
  }

  lemma {:induction false} CountBelow(t: seq<Urc>)
    ensures ActiveCount(t) <= |t|
    ensures ActiveCount(t) == |t| <==> forall i :: 0 <= i < |t| ==> Active(t[i])
  {
    hide Active;
    if t != [] {
      CountBelow(t[..|t| - 1]);
    }
  }

  /** The entries after a slot changes, if its name does not while it stays active. */
  ghost function Changed(m: map<seq<byte>, Entry>, old': Urc, new': Urc): map<seq<byte>, Entry> {
    if Active(new') then m[Name(new') := EntryOf(new')] else if Active(old') then m - {Name(old')} else m
  }

  lemma SlotChange(t: seq<Urc>, i: nat, u: Urc)
    requires i < |t| && Distinct(t) && Distinct(t[i := u])
    requires Active(t[i]) && Active(u) ==> Name(t[i]) == Name(u)
    ensures Entries(t[i := u]) == Changed(Entries(t), t[i], u)
  {
    hide Name, EntryOf, Active, Entries, Distinct;
    var s, m := t[i := u], Changed(Entries(t), t[i], u);
    forall id | id in Entries(s) ensures id in m && m[id] == Entries(s)[id] {
      var k := SlotOfEntry(s, id);
      EntryOfSlot(s, k);
      if k != i {
        EntryOfSlot(t, k);
        if Active(t[i]) {
          OthersDiffer(t, i, k);
        }
        if Active(u) {
          OthersDiffer(s, i, k);
        }
      }
    }
    forall id | id in m ensures id in Entries(s) {
      if Active(u) && id == Name(u) {
        EntryOfSlot(s, i);
      } else {
        var k := SlotOfEntry(t, id);
        if k != i {
          EntryOfSlot(s, k);
        }
      }
    }
  }

  lemma OthersDiffer(t: seq<Urc>, i: nat, k: nat)
    requires Distinct(t) && i < |t| && k < |t| && i != k && Active(t[i]) && Active(t[k])
    ensures Name(t[i]) != Name(t[k])
  {
  }

  /**
   * What registering means for a map of at most ten short identifiers. The empty identifier is accepted
   * when there is room, and never registered.
   */
  ghost function RegisterIn(m: map<seq<byte>, Entry>, id: seq<byte>, e: Entry): (map<seq<byte>, Entry>, bool) {
    if |id| >= ID_SIZE || (id !in m && |m| >= SLOTS) then (m, false)
    else if id == [] then (m, true)
    else (m[id := e], true)
  }

  /**
   * Registering any identifier is registering it in the map: it fails only when the identifier is too
   * long, or absent and the table full.
   */
  lemma RegisterRefines(t: seq<Urc>, id: seq<byte>, callback: Option<nat>, clear: bool)
    requires Valid(t) && IsText(id)
    ensures var (t', ok) := Register(t, id, callback, clear);
            && Valid(t')
            && (Entries(t'), ok) == RegisterIn(Entries(t), id, Entry(clear, callback))
            && forall i :: 0 <= i < SLOTS && Name(t'[i]) != Name(t[i]) ==> Name(t'[i]) == id
  {
    hide Name, Entries, StrCpy, First, Meets, Valid;
    ValidIsDistinct(t);
    if id == [] {
      RegisterNothing(t, callback, clear);
    } else if |id| < ID_SIZE {
      var same, free := First(t, Holding(id)), First(t, Free);
      FirstFinds(t, Free);
      HolderOf(t, id);
      if same < SLOTS {
        OverrideSlot(t, same, id, callback, clear);
      } else if free < SLOTS {
        FillSlot(t, free, id, callback, clear);
      } else {
        AllTaken(t);
      }
    }
  }

  /** Registering the empty identifier leaves every slot as active as it was. */
  lemma RegisterNothing(t: seq<Urc>, callback: Option<nat>, clear: bool)
    requires Valid(t)
    ensures |t| == SLOTS && forall i :: 0 <= i < SLOTS ==> |t[i].identifier| == ID_SIZE
    ensures var (t', ok) := Register(t, [], callback, clear);
            && Valid(t') && Entries(t') == Entries(t) && [] !in Entries(t) && ok == (|Entries(t)| < SLOTS)
            && forall i :: 0 <= i < SLOTS && Name(t'[i]) != Name(t[i]) ==> Name(t'[i]) == []
  {
    hide CStr, Entries, StrCpy, First;
    ValidIsDistinct(t);
    NoEmptyName(t);
    var same, free := First(t, Holding([])), First(t, Free);
    FirstFinds(t, Holding([]));
    FirstFinds(t, Free);
    if same < SLOTS {
      StayEmpty(t, same, t[same].(callback := callback, clear := clear));
      SomeFree(t, same);
    } else if free < SLOTS {
      EmptyName(t[free].identifier);
      StayEmpty(t, free, Urc(StrCpy(t[free].identifier, []), 0, clear, callback));
      SomeFree(t, free);
    } else {
      AllTaken(t);
    }
  }

  lemma NoEmptyName(t: seq<Urc>)
    requires Valid(t)
    ensures [] !in Entries(t)
  {
    hide Entries;
    if [] in Entries(t) {
      var k := SlotOfEntry(t, []);
      assert false;
    }
  }

  lemma EmptyName(buf: seq<byte>)
    requires |buf| == ID_SIZE
    ensures 0 in StrCpy(buf, []) && CStr(StrCpy(buf, [])) == [] && |StrCpy(buf, [])| == ID_SIZE
  {
    CStrOfCopy(buf, []);
  }

  /** An inactive slot that stays inactive. */
  lemma StayEmpty(t: seq<Urc>, i: nat, u: Urc)
    requires Valid(t) && i < SLOTS && !Active(t[i]) && !Active(u)
    requires |u.identifier| == ID_SIZE && 0 in u.identifier && (Name(u) == Name(t[i]) || Name(u) == [])
    ensures Valid(t[i := u]) && Entries(t[i := u]) == Entries(t)
  {
    hide Entries, CStr;
    SlotChange(t, i, u);
  }

  lemma SomeFree(t: seq<Urc>, i: nat)
    requires Valid(t) && i < SLOTS && !Active(t[i])
    ensures |Entries(t)| < SLOTS
  {
    hide Entries, Name;
    EntryCount(t);
    CountBelow(t);
  }

  lemma ValidIsDistinct(t: seq<Urc>)
    requires Valid(t)
    ensures |t| == SLOTS && Distinct(t) && forall i :: 0 <= i < SLOTS ==> |t[i].identifier| == ID_SIZE
  {
  }

  lemma AllTaken(t: seq<Urc>)
    requires Valid(t) && First(t, Free) == SLOTS
    ensures |Entries(t)| == SLOTS
  {
    hide Entries, First, Name, CStr;
    FirstFinds(t, Free);
    assert forall i :: 0 <= i < SLOTS ==> Active(t[i]);
    EntryCount(t);
    CountBelow(t);
  }

  lemma HolderOf(t: seq<Urc>, id: seq<byte>)
    requires Valid(t) && id != [] && IsText(id) && |id| < ID_SIZE
    ensures var i := First(t, Holding(id));
            && i <= SLOTS
            && (i < SLOTS ==> Active(t[i]) && Name(t[i]) == id && id in Entries(t))
            && (i == SLOTS ==> id !in Entries(t))
  {
    hide Entries, CStr, First;
    var i := First(t, Holding(id));
    FirstFinds(t, Holding(id));
    if i < SLOTS {
      CStrIs(t[i].identifier, id);
      EntryOfSlot(t, i);
    } else if id in Entries(t) {
      var k := SlotOfEntry(t, id);
      CStrIs(t[k].identifier, id);
      assert false;
    }
  }

  lemma FirstFinds(t: seq<Urc>, what: Sought)
    ensures var i := First(t, what);
            i <= |t| && (i < |t| ==> Meets(t[i], what)) && forall k :: 0 <= k < i ==> !Meets(t[k], what)
  {
  }

  lemma OverrideSlot(t: seq<Urc>, i: nat, id: seq<byte>, callback: Option<nat>, clear: bool)
    requires Valid(t) && i < SLOTS && Active(t[i]) && Name(t[i]) == id
    ensures var t' := t[i := t[i].(callback := callback, clear := clear)];
            && Valid(t') && Entries(t') == Entries(t)[id := Entry(clear, callback)]
            && Name(t'[i]) == Name(t[i])
  {
    hide Entries, CStr;
    var u := t[i].(callback := callback, clear := clear);
    assert Name(u) == id;
    SlotChange(t, i, u);
  }

  lemma FillSlot(t: seq<Urc>, i: nat, id: seq<byte>, callback: Option<nat>, clear: bool)
    requires Valid(t) && 0 < |id| < ID_SIZE && IsText(id) && id !in Entries(t)
    requires i < SLOTS && First(t, Free) == i
    ensures var t' := t[i := Urc(StrCpy(t[i].identifier, id), |id|, clear, callback)];
            && Valid(t') && Entries(t') == Entries(t)[id := Entry(clear, callback)] && |Entries(t)| < SLOTS
            && Name(t'[i]) == id
  {
    hide Entries, CStr, StrCpy, First, Name;
    var u := Urc(StrCpy(t[i].identifier, id), |id|, clear, callback);
    FirstFinds(t, Free);
    FilledName(t[i].identifier, u, id);
    FilledValid(t, i, u);
    EntryCount(t);
    CountBelow(t);
    SlotChange(t, i, u);
  }

  lemma FilledName(buf: seq<byte>, u: Urc, id: seq<byte>)
    requires 0 < |id| < |buf| == ID_SIZE && IsText(id) && u.identifier == StrCpy(buf, id) && u.length as int == |id|
    ensures Name(u) == id && ValidSlot(u)
  {
    CStrOfCopy(buf, id);
  }

  lemma FilledValid(t: seq<Urc>, i: nat, u: Urc)
    requires Valid(t) && i < SLOTS && ValidSlot(u) && Active(u) && Name(u) !in Entries(t)
    requires forall k :: 0 <= k < i ==> Active(t[k])
    ensures Valid(t[i := u])
  {
    hide Entries, Name, ValidSlot;
    forall k | 0 <= k < SLOTS && Active(t[k]) ensures Name(t[k]) != Name(u) {
      EntryOfSlot(t, k);
    }
  }

  /**
   * Unregistering removes exactly its identifier from the map if and only if the first slot whose
   * bytes begin with the identifier, if there is one, holds the identifier itself, or is stale while
   * the identifier is not registered anyway.
   */
  lemma UnregisterIff(t: seq<Urc>, id: seq<byte>)
    requires Valid(t) && IsText(id)
    ensures Valid(Unregister(t, id))
    ensures forall i :: 0 <= i < SLOTS ==> Name(Unregister(t, id)[i]) == Name(t[i])
    ensures var i := First(t, Beginning(id));
            Entries(Unregister(t, id)) == Entries(t) - {id}
            <==> |id| >= ID_SIZE || i == SLOTS || Name(t[i]) == id || (!Active(t[i]) && id !in Entries(t))
  {
    hide Entries, Name, First, Meets, Valid;
    ValidIsDistinct(t);
    var i := First(t, Beginning(id));
    FirstFinds(t, Beginning(id));
    Beginners(t, id);
    if id !in Entries(t) {
      assert Entries(t) - {id} == Entries(t);
    }
    if |id| < ID_SIZE && i < SLOTS {
      EmptySlot(t, i);
      if Active(t[i]) {
        EntryOfSlot(t, i);
      }
      if Name(t[i]) == id {
        NotElsewhere(t, i, id);
      }
    }
  }

  /** Nothing is registered under an identifier below the first slot that begins with it. */
  lemma Beginners(t: seq<Urc>, id: seq<byte>)
    requires Valid(t) && IsText(id)
    ensures |id| >= ID_SIZE || First(t, Beginning(id)) == SLOTS ==> id !in Entries(t)
    ensures forall k :: 0 <= k < First(t, Beginning(id)) ==> Name(t[k]) != id
    ensures First(t, Beginning(id)) < SLOTS ==> id <= Name(t[First(t, Beginning(id))])
  {
    hide Entries, CStr, First;
    FirstFinds(t, Beginning(id));
    forall k | 0 <= k < SLOTS ensures Meets(t[k], Beginning(id)) <==> id <= Name(t[k]) {
      CStrIs(t[k].identifier, id);
    }
    if id in Entries(t) {
      var k := SlotOfEntry(t, id);
    }
  }

  /** Deactivating a slot. */
  lemma EmptySlot(t: seq<Urc>, i: nat)
    requires Valid(t) && i < SLOTS
    ensures var t' := t[i := t[i].(length := 0, callback := None)];
            && Valid(t') && Name(t'[i]) == Name(t[i])
            && Entries(t') == if Active(t[i]) then Entries(t) - {Name(t[i])} else Entries(t)
  {
    hide Entries, CStr;
    var u := t[i].(length := 0, callback := None);
    assert Name(u) == Name(t[i]);
    SlotChange(t, i, u);
  }

  /** A name in an inactive slot is not registered, if no slot below it has the name. */
  lemma NotElsewhere(t: seq<Urc>, i: nat, id: seq<byte>)
    requires Valid(t) && i < SLOTS && Name(t[i]) == id && forall k :: 0 <= k < i ==> Name(t[k]) != id
    ensures !Active(t[i]) ==> id !in Entries(t)
  {
    hide Entries, Name;
    if !Active(t[i]) && id in Entries(t) {
      var k := SlotOfEntry(t, id);
      assert false;
    }
  }

  /** With identifiers of which one begins with another, the wrong callback can go. */
  lemma UnregisterCanHitAnother(one: seq<byte>, two: seq<byte>, callback: Option<nat>, clear: bool)
    requires one == [65, 66] && two == [65]
    ensures var t := Register(Empty(), one, callback, clear).0;
            Valid(t) && one in Entries(t) && one !in Entries(Unregister(t, two))
  {
    hide Entries, CStr, First, Register;
    var t := Register(Empty(), one, callback, clear).0;
    EmptyTable();
    RegisterRefines(Empty(), one, callback, clear);
    var k := SlotOfEntry(t, one);
    var i := First(t, Beginning(two));
    Beginners(t, two);
    CStrIs(t[k].identifier, two);
    FirstFinds(t, Beginning(two));
    assert two <= one;
    assert i <= k && Name(t[i]) == one;
    assert i == k;
    EmptySlot(t, i);
  }

  ghost function Empty(): (t: seq<Urc>)
    ensures |t| == SLOTS
  {
    seq(SLOTS, _ => Urc(seq(ID_SIZE, _ => 0), 0, false, None))
  }

  lemma EmptyTable()
    ensures Valid(Empty()) && Entries(Empty()) == map[] && forall i :: 0 <= i < SLOTS ==> Name(Empty()[i]) == []
  {
    var zeros := seq(ID_SIZE, _ => 0);
    assert zeros[0] == 0;
    NoEntries(Empty());
  }

  lemma {:induction false} NoEntries(t: seq<Urc>)
    requires forall i :: 0 <= i < |t| ==> !Active(t[i])
    ensures Entries(t) == map[]
  {
    if t != [] {
      NoEntries(t[..|t| - 1]);
    }
  }

  // ----- every run over prefix-free identifiers -----

  datatype Call = Add(id: seq<byte>, callback: Option<nat>, clear: bool) | Remove(id: seq<byte>)

  /** No identifier of the family begins with another. */
  ghost predicate PrefixFree(family: set<seq<byte>>) {
    forall a, b :: a in family && b in family && a <= b ==> a == b
  }

  ghost predicate Uses(calls: seq<Call>, family: set<seq<byte>>) {
    forall i :: 0 <= i < |calls| ==> calls[i].id in family && IsText(calls[i].id)
  }

  /** The table after the calls, and what each registration returned. */
  ghost function RunCalls(t: seq<Urc>, calls: seq<Call>): (seq<Urc>, seq<bool>)
    requires |t| == SLOTS && forall i :: 0 <= i < SLOTS ==> |t[i].identifier| == ID_SIZE
    decreases |calls|
  {
    if calls == [] then (t, [])
    else
      match calls[0]
      case Add(id, callback, clear) =>
        var (t', ok) := Register(t, id, callback, clear);
        var (end, oks) := RunCalls(t', calls[1..]);
        (end, [ok] + oks)
      case Remove(id) => RunCalls(Unregister(t, id), calls[1..])
  }

  /** The same calls on a map that holds at most ten identifiers. */
  ghost function RunCallsIn(m: map<seq<byte>, Entry>, calls: seq<Call>): (map<seq<byte>, Entry>, seq<bool>)
    decreases |calls|
  {
    if calls == [] then (m, [])
    else
      match calls[0]
      case Add(id, callback, clear) =>
        var (m', ok) := RegisterIn(m, id, Entry(clear, callback));
        var (end, oks) := RunCallsIn(m', calls[1..]);
        (end, [ok] + oks)
      case Remove(id) => RunCallsIn(m - {id}, calls[1..])
  }

  /** Every name in the table, stale or not, is of the family or empty. */
  ghost predicate NamesIn(t: seq<Urc>, family: set<seq<byte>>) {
    forall i :: 0 <= i < |t| ==> Name(t[i]) == [] || Name(t[i]) in family
  }

  /**
   * For every sequence of calls over identifiers of which none begins with another, the table is a map
   * with room for ten: registering fails only for a new identifier in a full table, and unregistering
   * removes its identifier and nothing else.
   */
  lemma {:induction false} RunRefines(t: seq<Urc>, calls: seq<Call>, family: set<seq<byte>>)
    requires Valid(t) && PrefixFree(family) && Uses(calls, family) && NamesIn(t, family)
    ensures var (end, oks) := RunCalls(t, calls); Valid(end) && (Entries(end), oks) == RunCallsIn(Entries(t), calls)
    decreases |calls|
  {
    hide Valid, Entries, Name, Register, RegisterIn, Unregister, IsText, PrefixFree;
    ValidIsDistinct(t);
    if calls != [] {
      match calls[0] {
        case Add(id, callback, clear) =>
          var t' := Register(t, id, callback, clear).0;
          RegisterRefines(t, id, callback, clear);
          ValidIsDistinct(t');
          RunRefines(t', calls[1..], family);
        case Remove(id) =>
          RemoveRefines(t, id, family);
          ValidIsDistinct(Unregister(t, id));
          RunRefines(Unregister(t, id), calls[1..], family);
      }
    }
  }

  lemma RemoveRefines(t: seq<Urc>, id: seq<byte>, family: set<seq<byte>>)
    requires Valid(t) && PrefixFree(family) && id in family && IsText(id) && NamesIn(t, family)
    ensures var t' := Unregister(t, id);
            Valid(t') && NamesIn(t', family) && Entries(t') == Entries(t) - {id}
  {
    hide Entries, Name, First, Valid;
    ValidIsDistinct(t);
    FirstFinds(t, Beginning(id));
    Beginners(t, id);
    UnregisterIff(t, id);
  }

  // ----- the receive interrupt's search -----

  /** The interrupt finds exactly the registered identifiers; an inactive slot never matches. */
  lemma LookupFinds(t: seq<Urc>, id: seq<byte>)
    requires Valid(t) && id != []
    ensures var i := Lookup(t, id);
            && (i < SLOTS <==> id in Entries(t))
            && (i < SLOTS ==> Active(t[i]) && Name(t[i]) == id && Entries(t)[id] == EntryOf(t[i]))
  {
    hide Entries, CStr, First;
    var i := Lookup(t, id);
    FirstFinds(t, Spelled(id));
    if i < SLOTS {
      SpelledIsNamed(t[i], id);
      EntryOfSlot(t, i);
    } else if id in Entries(t) {
      var k := SlotOfEntry(t, id);
      SpelledIsNamed(t[k], id);
      assert false;
    }
  }

  lemma SpelledIsNamed(u: Urc, id: seq<byte>)
    requires ValidSlot(u) && id != []
    ensures Meets(u, Spelled(id)) <==> Active(u) && Name(u) == id
  {
    var name := Name(u);
    assert u.identifier[..|name|] == name;
  }

  // ----- the C++ functions -----

  /** registerCallback. */
  method RegisterCallback(urcs: array<Urc>, id: seq<byte>, callback: Option<nat>, clear: bool) returns (ok: bool)
    requires urcs.Length == SLOTS && forall i :: 0 <= i < SLOTS ==> |urcs[i].identifier| == ID_SIZE
    modifies urcs
    ensures (urcs[..], ok) == Register(old(urcs[..]), id, callback, clear)
  {
    hide StrEqual, StrCpy, First;
    ghost var t: seq<Urc> := urcs[..];
    if |id| > ID_SIZE - 1 {
      return false;
    }
    var i := 0;
    while i < SLOTS
      invariant 0 <= i <= SLOTS && urcs[..] == t
      invariant forall k :: 0 <= k < i ==> !Meets(t[k], Holding(id))
    {
      if urcs[i].length as int == |id| && StrEqual(urcs[i].identifier, id) {
        FirstIs(t, Holding(id), i);
        urcs[i] := urcs[i].(callback := callback, clear := clear);
        return true;
      }
      i := i + 1;
    }
    FirstIs(t, Holding(id), SLOTS);
    i := 0;
    while i < SLOTS
      invariant 0 <= i <= SLOTS && urcs[..] == t
      invariant forall k :: 0 <= k < i ==> !Meets(t[k], Free)
    {
      if urcs[i].length == 0 {
        FirstIs(t, Free, i);
        urcs[i] := Urc(StrCpy(urcs[i].identifier, id), |id|, clear, callback);
        return true;
      }
      i := i + 1;
    }
    FirstIs(t, Free, SLOTS);
    ok := false;
  }

  /** unregisterCallback. */
  method UnregisterCallback(urcs: array<Urc>, id: seq<byte>)
    requires urcs.Length == SLOTS
    modifies urcs
    ensures urcs[..] == Unregister(old(urcs[..]), id)
  {
    hide MemEqual, First;
    ghost var t: seq<Urc> := urcs[..];
    if |id| > ID_SIZE - 1 {
      return;
    }
    var i := 0;
    while i < SLOTS
      invariant 0 <= i <= SLOTS && urcs[..] == t
      invariant forall k :: 0 <= k < i ==> !Meets(t[k], Beginning(id))
    {
      if MemEqual(urcs[i].identifier, id) {
        FirstIs(t, Beginning(id), i);
        urcs[i] := urcs[i].(length := 0, callback := None);
        return;
      }
      i := i + 1;
    }
    FirstIs(t, Beginning(id), SLOTS);
  }

  lemma {:induction false} FirstIs(t: seq<Urc>, what: Sought, i: nat)
    requires i <= |t| && (i < |t| ==> Meets(t[i], what)) && forall k :: 0 <= k < i ==> !Meets(t[k], what)
    ensures First(t, what) == i
  {
    FirstFinds(t, what);
  }
}
