/** The working memory (heart/WorkingMemory.java): the registry of attribute
    values, with per-cycle candidate values while time is locked, the history log,
    named snapshots, and historical addressing by state count or by milliseconds. */
module Memory {
  import opened Errors
  import opened Values
  import opened Numeric
  import opened Ambiguity
  import opened RelativeTime
  import opened Widths

  /** The history log keeps at most this many states. */
  const MaxHistorySize: nat := 1000000

  /** AVEntry: the attribute, its committed value, and the candidate values
      written while time was locked. */
  datatype Entry = Entry(attr: Attribute, value: Value, cands: seq<Value>)

  /** A recorded state: when it was taken, and the value of each attribute. */
  datatype State = State(ts: int, elems: map<string, Value>)

  /** A state with no values (the timestamp a new State takes is set outside this
      model and is modelled as 0). */
  const EmptyState: State := State(0, map[])

  datatype Memory = Memory(
    entries: map<string, Entry>,
    history: seq<State>,
    snapshots: map<string, State>,
    locked: bool,
    frozen: int,
    resolver: Resolver)

  /** A new working memory: nothing registered, time unlocked, the default resolver. */
  const Fresh: Memory := Memory(map[], [], map[], false, 0, DefaultResolver)

  /** Domain membership and domain lookup of the value kinds whose code is not part
      of this model: `check` is Value.checkDomain, `member` is isInTheDomain of
      every kind but numbers, and `find` is SimpleSymbolic.findInTheDomain, which
      maps a number to the ordered symbol of that order number and back. */
  datatype Domains = Domains(
    check: DomainCheck,
    member: (Value, Type) -> Result<bool>,
    find: (Value, Type) -> Option<Value>)

  /** Value.isInTheDomain: the numeric code for numbers, the collaborator otherwise. */
  function InDomain(d: Domains, v: Value, ty: Type): (r: Result<bool>)
    ensures v.datum.Num? && WellFormed(ty.domain) ==> r == Ok(Member(v.datum.x, ty.domain))
  {
    if v.datum.Num? then InTheDomain(v.datum.x, ty, d.check) else d.member(v, ty)
  }

  /** A simple attribute converts between numbers and symbols of its type's base. */
  predicate Converts(attr: Attribute, v: Value) {
    attr.xttClass.Simple? &&
    ((v.datum.Num? && attr.ty.base.SymbolicBase?) || (v.datum.Sym? && attr.ty.base.NumericBase?))
  }

  /** The value AVEntry.setAttributeValue stores for `v`. Null is always accepted;
      a value outside the domain is refused; a value whose membership cannot be
      decided (UnknownValue) is stored as Null; other failures of the membership
      test propagate; a number written to a symbolic simple attribute, or a symbol
      to a numeric one, is replaced by its counterpart in the domain. */
  function Coerce(d: Domains, attr: Attribute, v: Value): (r: Result<Value>)
    ensures IsNull(v) ==> r == Ok(v)
    ensures !IsNull(v) && InDomain(d, v, attr.ty) == Ok(false) ==> r == Fail(NotInTheDomain)
    ensures !IsNull(v) && InDomain(d, v, attr.ty) == Fail(UnknownValue) ==> r == Ok(NullValue)
    ensures r.Fail? ==> r.error != UnknownValue
    ensures r.Ok? && !IsNull(r.value) ==> InDomain(d, v, attr.ty) == Ok(true)
    ensures r.Ok? && !IsNull(r.value) && !Converts(attr, v) ==> r.value == v
    ensures r.Ok? && !IsNull(r.value) && Converts(attr, v) ==> d.find(v, attr.ty) == Some(r.value)
    ensures !IsNull(v) && InDomain(d, v, attr.ty) == Ok(true) && !Converts(attr, v) ==> r == Ok(v)
  {
    if IsNull(v) then Ok(v)
    else
      match InDomain(d, v, attr.ty)
      case Fail(e) => if e == UnknownValue then Ok(NullValue) else Fail(e)
      case Ok(inside) =>
        if !inside then Fail(NotInTheDomain)
        else if Converts(attr, v) then
          match d.find(v, attr.ty)
          case None => Fail(NotInTheDomain)
          case Some(w) => Ok(w)
        else Ok(v)
  }

  /** How an accepted value is stored: while unlocked it overwrites the committed
      value; while locked a Null clears the candidates and is committed, and any
      other value joins the candidates. */
  function Store(e: Entry, w: Value, locked: bool): (r: Entry)
    ensures r.attr == e.attr
    ensures !locked ==> r.value == w && r.cands == e.cands
    ensures locked && IsNull(w) ==> r.value == w && r.cands == []
    ensures locked && !IsNull(w) ==> r.value == e.value && r.cands == e.cands + [w]
  {
    if !locked then e.(value := w)
    else if IsNull(w) then e.(value := w, cands := [])
    else e.(cands := e.cands + [w])
  }

  /** AVEntry.getValue without the callback: pending candidates are resolved,
      otherwise the committed value is returned. */
  function Read(res: Resolver, e: Entry): Value {
    if |e.cands| > 0 then ResolveCumulative(res, e.cands) else e.value
  }

  /** The side effect of AVEntry.getValue: the committed value becomes the
      resolution of the pending candidates, which stay pending. */
  function Settle(res: Resolver, e: Entry): Entry {
    if |e.cands| > 0 then e.(value := ResolveCumulative(res, e.cands)) else e
  }

  /** resolveAmbiguousAttributeValue followed by clearAmbiguousValues. */
  function Commit(res: Resolver, e: Entry): (r: Entry)
    ensures r.cands == [] && r.attr == e.attr
  {
    Entry(e.attr, Read(res, e), [])
  }

  /** Reading settles an entry, but nothing can observe it: a settled entry reads,
      stores and commits exactly as the unsettled one, and settling twice is
      settling once. So two reads with no write in between return the same value,
      and reads are modelled as pure. */
  lemma SettleUnobservable(res: Resolver, e: Entry, w: Value, locked: bool)
    ensures Read(res, Settle(res, e)) == Read(res, e)
    ensures Read(res, Store(Settle(res, e), w, locked)) == Read(res, Store(e, w, locked))
    ensures Commit(res, Settle(res, e)) == Commit(res, e)
    ensures Settle(res, Settle(res, e)) == Settle(res, e)
  {
  }

  /** What a read returns after a store: the new value, unless a write while
      unlocked lands under pending candidates, which still win; a locked non-Null
      write is resolved together with the earlier candidates. */
  lemma ReadAfterStore(res: Resolver, e: Entry, w: Value, locked: bool)
    ensures !locked && |e.cands| == 0 ==> Read(res, Store(e, w, locked)) == w
    ensures !locked && |e.cands| > 0 ==> Read(res, Store(e, w, locked)) == Read(res, e)
    ensures locked && IsNull(w) ==> Read(res, Store(e, w, locked)) == w
    ensures locked && !IsNull(w) ==> Read(res, Store(e, w, locked)) == ResolveCumulative(res, e.cands + [w])
    ensures locked && !IsNull(w) && res.DefaultResolver? ==> Read(res, Store(e, w, locked)) == w
  {
  }

  /** registerAttribute: a new entry holds Null; an existing entry is kept. */
  function Register(m: Memory, attr: Attribute): (r: Memory)
    ensures attr.name in r.entries
    ensures attr.name in m.entries ==> r == m
    ensures attr.name !in m.entries ==> r == m.(entries := m.entries[attr.name := Entry(attr, NullValue, [])])
  {
    if attr.name in m.entries then m
    else m.(entries := m.entries[attr.name := Entry(attr, NullValue, [])])
  }

  /** Registering is idempotent, and a freshly registered attribute reads as Null. */
  lemma RegisterIdempotent(m: Memory, a: Attribute, b: Attribute)
    requires a.name == b.name
    ensures Register(Register(m, a), b) == Register(m, a)
    ensures a.name !in m.entries ==> IsNull(GetValue(Register(m, a), a.name))
  {
  }

  /** registerAllAttributes: every attribute of the model, in order. */
  function RegisterAll(m: Memory, attrs: seq<Attribute>): (r: Memory)
    ensures forall i :: 0 <= i < |attrs| ==> attrs[i].name in r.entries
    ensures forall n :: n in m.entries ==> n in r.entries && r.entries[n] == m.entries[n]
    ensures r.entries.Keys == m.entries.Keys + Names(attrs)
    ensures r.history == m.history && r.locked == m.locked && r.resolver == m.resolver
    decreases |attrs|
  {
    if |attrs| == 0 then m
    else
      var r := RegisterAll(Register(m, attrs[0]), attrs[1..]);
      assert forall i :: 1 <= i < |attrs| ==> attrs[i] == attrs[1..][i - 1];
      NamesCons(attrs);
      r
  }

  /** The names of a list of attributes. */
  function Names(attrs: seq<Attribute>): set<string> {
    set i | 0 <= i < |attrs| :: attrs[i].name
  }

  lemma NamesCons(attrs: seq<Attribute>)
    requires |attrs| > 0
    ensures Names(attrs) == {attrs[0].name} + Names(attrs[1..])
  {
    forall n | n in Names(attrs) ensures n in {attrs[0].name} + Names(attrs[1..]) {
      var i :| 0 <= i < |attrs| && attrs[i].name == n;
      if i > 0 {
        assert attrs[1..][i - 1].name == n;
      }
    }
    forall n | n in Names(attrs[1..]) ensures n in Names(attrs) {
      var i :| 0 <= i < |attrs[1..]| && attrs[1..][i].name == n;
      assert attrs[i + 1].name == n;
    }
  }

  /** unregisterAttribute: the entry disappears; an absent name changes nothing. */
  function Unregister(m: Memory, name: string): (r: Memory)
    ensures r.entries.Keys == m.entries.Keys - {name}
    ensures forall n :: n in r.entries ==> r.entries[n] == m.entries[n]
    ensures IsNull(GetValue(r, name))
  {
    m.(entries := m.entries - {name})
  }

  /** unregisterAll: every attribute of the model. */
  function UnregisterAll(m: Memory, attrs: seq<Attribute>): (r: Memory)
    ensures forall i :: 0 <= i < |attrs| ==> attrs[i].name !in r.entries
    ensures forall n :: n in r.entries ==> n in m.entries && r.entries[n] == m.entries[n]
    ensures forall n :: n in m.entries && (forall i :: 0 <= i < |attrs| ==> attrs[i].name != n) ==> n in r.entries
    decreases |attrs|
  {
    if |attrs| == 0 then m
    else
      var r := UnregisterAll(Unregister(m, attrs[0].name), attrs[1..]);
      assert forall i :: 1 <= i < |attrs| ==> attrs[i] == attrs[1..][i - 1];
      r
  }

  /** getAttribute: the registered attribute; an unregistered name dereferences null. */
  function AttributeOf(m: Memory, name: string): (r: Result<Attribute>)
    ensures name !in m.entries <==> r == Fail(NullPointer)
    ensures r.Ok? ==> r.value.name == name || r.value == m.entries[name].attr
  {
    if name in m.entries then Ok(m.entries[name].attr) else Fail(NullPointer)
  }

  /** getAttributeValue: the resolved value of a registered attribute, Null for an
      unregistered one. */
  function GetValue(m: Memory, name: string): (r: Value)
    ensures name !in m.entries ==> r == NullValue
  {
    if name in m.entries then Read(m.resolver, m.entries[name]) else NullValue
  }

  /** setAttributeValue by name. */
  function Write(m: Memory, d: Domains, name: string, v: Value): (r: Result<Memory>)
    ensures name !in m.entries ==> r == Fail(AttributeNotRegistered)
    ensures name in m.entries && Coerce(d, m.entries[name].attr, v).Fail? ==>
              r == Fail(Coerce(d, m.entries[name].attr, v).error)
    ensures r.Ok? ==> name in m.entries && Coerce(d, m.entries[name].attr, v).Ok?
    ensures r.Ok? ==> r.value == m.(entries := m.entries[name := Store(m.entries[name], Coerce(d, m.entries[name].attr, v).value, m.locked)])
  {
    if name !in m.entries then Fail(AttributeNotRegistered)
    else
      var e := m.entries[name];
      match Coerce(d, e.attr, v)
      case Fail(err) => Fail(err)
      case Ok(w) => Ok(m.(entries := m.entries[name := Store(e, w, m.locked)]))
  }

  /** A write touches one entry: every other attribute reads as before, and the
      history, snapshots, lock and resolver are unchanged. */
  lemma WriteIsLocal(m: Memory, d: Domains, name: string, v: Value, other: string)
    requires Write(m, d, name, v).Ok? && other != name
    ensures GetValue(Write(m, d, name, v).value, other) == GetValue(m, other)
    ensures var r := Write(m, d, name, v).value;
      r.entries.Keys == m.entries.Keys && r.history == m.history && r.snapshots == m.snapshots &&
      r.locked == m.locked && r.frozen == m.frozen && r.resolver == m.resolver
  {
  }

  /** Writing an accepted value while unlocked, with no candidates pending, makes
      the next read return it; writing Null always succeeds on a registered
      attribute and reads back as that Null. */
  lemma WriteThenRead(m: Memory, d: Domains, name: string, v: Value)
    requires name in m.entries
    ensures IsNull(v) ==> Write(m, d, name, v).Ok?
    ensures IsNull(v) && (m.locked || |m.entries[name].cands| == 0) ==> GetValue(Write(m, d, name, v).value, name) == v
    ensures !m.locked && |m.entries[name].cands| == 0 && Coerce(d, m.entries[name].attr, v).Ok? ==>
              GetValue(Write(m, d, name, v).value, name) == Coerce(d, m.entries[name].attr, v).value
  {
  }

  /** What a sequence of writes leaves: the memory, and the failure that
      escaped, if any. A failed write keeps what was done before it. */
  datatype Run = Run(m: Memory, escaped: Option<Error>)

  /** A write attempted on `m`: the memory written, or `m` itself with the
      failure. */
  function Attempt(m: Memory, w: Result<Memory>): (r: Run)
    ensures w.Ok? <==> r.escaped.None?
    ensures w.Ok? ==> r.m == w.value
    ensures w.Fail? ==> r == Run(m, Some(w.error))
  {
    match w
    case Ok(m1) => Run(m1, None)
    case Fail(e) => Run(m, Some(e))
  }

  /** setAttributeValue(attribute, value, autoregister) as written: the attribute
      is registered first, and without autoregistration an unregistered attribute
      is a null entry, so the call fails with a NullPointerException rather than
      the declared AttributeNotRegisteredException. */
  function WriteAttributeAsWritten(m: Memory, d: Domains, attr: Attribute, v: Value, autoregister: bool): Run {
    var m1 := if autoregister then Register(m, attr) else m;
    if attr.name !in m1.entries then Run(m1, Some(NullPointer)) else Attempt(m1, Write(m1, d, attr.name, v))
  }

  /** setAttributeValue(attribute, value, autoregister) with the declared failure.
      Registration comes first and is not undone: with autoregistration the
      attribute is registered whatever the write does, and a refused value leaves
      it registered and holding what it held. */
  function WriteAttribute(m: Memory, d: Domains, attr: Attribute, v: Value, autoregister: bool): (r: Run)
    ensures autoregister ==> attr.name in r.m.entries
    ensures !autoregister && attr.name !in m.entries ==> r == Run(m, Some(AttributeNotRegistered))
    ensures r.escaped.Some? ==> r.m == (if autoregister then Register(m, attr) else m)
    ensures r.escaped.Some? ==> r.escaped.value != UnknownValue
    ensures autoregister ==> (r.escaped.None? <==> Coerce(d, Register(m, attr).entries[attr.name].attr, v).Ok?)
    ensures !autoregister ==> (r.escaped.None? <==> attr.name in m.entries && Coerce(d, m.entries[attr.name].attr, v).Ok?)
    ensures r.escaped.None? ==> r.m == Write(if autoregister then Register(m, attr) else m, d, attr.name, v).value
    ensures m.entries.Keys <= r.m.entries.Keys
    ensures r.m.history == m.history && r.m.snapshots == m.snapshots && r.m.locked == m.locked &&
            r.m.frozen == m.frozen && r.m.resolver == m.resolver
  {
    var m1 := if autoregister then Register(m, attr) else m;
    Attempt(m1, Write(m1, d, attr.name, v))
  }

  /** The two agree except on an unregistered attribute without autoregistration. */
  lemma WriteAttributeDiscrepancy(m: Memory, d: Domains, attr: Attribute, v: Value, autoregister: bool)
    ensures !autoregister && attr.name !in m.entries ==>
              WriteAttributeAsWritten(m, d, attr, v, autoregister) == Run(m, Some(NullPointer)) &&
              WriteAttribute(m, d, attr, v, autoregister) == Run(m, Some(AttributeNotRegistered))
    ensures autoregister || attr.name in m.entries ==>
              WriteAttributeAsWritten(m, d, attr, v, autoregister) == WriteAttribute(m, d, attr, v, autoregister)
  {
  }

  /** The value a state holds for an attribute, Null when it holds none. */
  function StateValue(s: State, name: string): (r: Value)
    ensures name in s.elems ==> r == s.elems[name]
    ensures name !in s.elems ==> IsNull(r)
  {
    if name in s.elems then s.elems[name] else NullValue
  }

  /** setCurrentState: every attribute of the model takes its value in the state,
      in model order, one write at a time; the first failure ends the walk and
      escapes, and the attributes written before it, and the registration of the
      one that failed, stay. The writes go through the corrected WriteAttribute,
      so an unregistered attribute without autoregistration fails with
      AttributeNotRegistered rather than with the source's NullPointerException. */
  function SetCurrentState(m: Memory, d: Domains, s: State, attrs: seq<Attribute>, autoregister: bool): (r: Run)
    ensures |attrs| == 0 ==> r == Run(m, None)
    ensures |attrs| > 0 && WriteAttribute(m, d, attrs[0], StateValue(s, attrs[0].name), autoregister).escaped.Some? ==>
              r == WriteAttribute(m, d, attrs[0], StateValue(s, attrs[0].name), autoregister)
    ensures |attrs| > 0 && !autoregister && attrs[0].name !in m.entries ==> r == Run(m, Some(AttributeNotRegistered))
    ensures autoregister && r.escaped.None? ==> forall i :: 0 <= i < |attrs| ==> attrs[i].name in r.m.entries
    ensures autoregister && |attrs| > 0 ==> attrs[0].name in r.m.entries
    ensures r.m.locked == m.locked && r.m.history == m.history && r.m.resolver == m.resolver &&
            r.m.snapshots == m.snapshots && r.m.frozen == m.frozen
    ensures m.entries.Keys <= r.m.entries.Keys
    ensures r.escaped.Some? ==> r.escaped.value != UnknownValue
    decreases |attrs|
  {
    if |attrs| == 0 then Run(m, None)
    else
      var first := WriteAttribute(m, d, attrs[0], StateValue(s, attrs[0].name), autoregister);
      if first.escaped.Some? then first
      else
        var r := SetCurrentState(first.m, d, s, attrs[1..], autoregister);
        assert forall i :: 1 <= i < |attrs| ==> attrs[i] == attrs[1..][i - 1];
        r
  }

  /** Walking `attrs` is walking its first `k` attributes and then, if that got
      through, the rest from the memory it reached. */
  lemma {:induction false} SetCurrentStateSplits(m: Memory, d: Domains, s: State, attrs: seq<Attribute>, autoregister: bool, k: nat)
    requires k <= |attrs|
    ensures var p := SetCurrentState(m, d, s, attrs[..k], autoregister);
      SetCurrentState(m, d, s, attrs, autoregister) ==
        if p.escaped.Some? then p else SetCurrentState(p.m, d, s, attrs[k..], autoregister)
    decreases k
  {
    if k == 0 {
      assert attrs[k..] == attrs;
    } else {
      var first := WriteAttribute(m, d, attrs[0], StateValue(s, attrs[0].name), autoregister);
      assert attrs[..k][0] == attrs[0];
      if first.escaped.None? {
        assert attrs[..k][1..] == attrs[1..][..k - 1];
        assert attrs[k..] == attrs[1..][k - 1..];
        SetCurrentStateSplits(first.m, d, s, attrs[1..], autoregister, k - 1);
      }
    }
  }

  /** Where the walk stops: when the first `k` attributes are written and the
      write of attribute `k` fails, the walk ends with exactly the memory that
      failed write leaves, which with autoregistration has attributes 0 to `k`
      registered. */
  lemma SetCurrentStateStops(m: Memory, d: Domains, s: State, attrs: seq<Attribute>, autoregister: bool, k: nat)
    requires k < |attrs|
    requires SetCurrentState(m, d, s, attrs[..k], autoregister).escaped.None?
    ensures var p := SetCurrentState(m, d, s, attrs[..k], autoregister).m;
      var w := WriteAttribute(p, d, attrs[k], StateValue(s, attrs[k].name), autoregister);
      w.escaped.Some? ==> SetCurrentState(m, d, s, attrs, autoregister) == w
    ensures autoregister ==> forall i :: 0 <= i <= k ==> attrs[i].name in SetCurrentState(m, d, s, attrs, autoregister).m.entries
  {
    SetCurrentStateSplits(m, d, s, attrs, autoregister, k);
    var p := SetCurrentState(m, d, s, attrs[..k], autoregister);
    assert attrs[k..][0] == attrs[k];
    if autoregister {
      forall i | 0 <= i <= k ensures attrs[i].name in SetCurrentState(m, d, s, attrs, autoregister).m.entries {
        if i < k {
          assert attrs[..k][i] == attrs[i];
        }
      }
    }
  }

  /** A refused value keeps the earlier writes: with two fresh attributes whose
      first value is accepted and whose second is refused as outside its domain,
      the walk escapes with NotInTheDomain after storing the first value and
      registering the second, which holds Null. */
  lemma RefusedSecondValue(m: Memory, d: Domains, s: State, a: Attribute, b: Attribute)
    requires a.name != b.name && a.name !in m.entries && b.name !in m.entries
    requires Coerce(d, a, StateValue(s, a.name)).Ok?
    requires Coerce(d, b, StateValue(s, b.name)) == Fail(NotInTheDomain)
    ensures var r := SetCurrentState(m, d, s, [a, b], true);
      && r.escaped == Some(NotInTheDomain)
      && r.m.entries == m.entries[a.name := Store(Entry(a, NullValue, []), Coerce(d, a, StateValue(s, a.name)).value, m.locked)]
                                 [b.name := Entry(b, NullValue, [])]
  {
    var w := Coerce(d, a, StateValue(s, a.name)).value;
    var first := WriteAttribute(m, d, a, StateValue(s, a.name), true);
    assert first.m == m.(entries := m.entries[a.name := Store(Entry(a, NullValue, []), w, m.locked)]);
    assert [a, b][1..] == [b];
  }

  /** getCurrentState: the resolved value of every registered attribute. */
  function CurrentState(m: Memory, now: int): (s: State)
    ensures s.ts == now && s.elems.Keys == m.entries.Keys
    ensures forall n :: n in m.entries ==> s.elems[n] == GetValue(m, n)
  {
    State(now, map n | n in m.entries :: Read(m.resolver, m.entries[n]))
  }

  /** getCurrentState(model): the value of every attribute of the model, Null for
      those not registered. */
  function CurrentStateOf(m: Memory, attrs: seq<Attribute>, now: int): (s: State)
    ensures s.ts == now
    ensures s.elems.Keys == Names(attrs)
    ensures forall i :: 0 <= i < |attrs| ==> s.elems[attrs[i].name] == GetValue(m, attrs[i].name)
  {
    State(now, map n | n in Names(attrs) :: GetValue(m, n))
  }

  /** resolveAmbiguousAttributesValues: every entry commits its resolved value and
      drops its candidates. */
  function ResolveAll(m: Memory): (r: Memory)
    ensures r.entries.Keys == m.entries.Keys
    ensures forall n :: n in r.entries ==> r.entries[n].cands == [] && r.entries[n].attr == m.entries[n].attr
    ensures r.history == m.history && r.snapshots == m.snapshots && r.locked == m.locked
    ensures r.frozen == m.frozen && r.resolver == m.resolver
  {
    m.(entries := map n | n in m.entries :: Commit(m.resolver, m.entries[n]))
  }

  /** Resolving changes no read: every attribute reads as before, and resolving
      again changes nothing. */
  lemma ResolveAllKeepsReads(m: Memory, name: string)
    ensures GetValue(ResolveAll(m), name) == GetValue(m, name)
    ensures ResolveAll(ResolveAll(m)) == ResolveAll(m)
  {
    var r := ResolveAll(m);
    assert forall n :: n in r.entries ==> r.entries[n] == Commit(m.resolver, m.entries[n]);
    assert ResolveAll(r).entries == r.entries;
  }

  /** The history log after appending a state: the oldest state is evicted first
      when the log is full. */
  function Append(h: seq<State>, s: State): (r: seq<State>)
    ensures |r| > 0 && r[|r| - 1] == s
    ensures |h| <= MaxHistorySize ==> |r| <= MaxHistorySize
    ensures |h| < MaxHistorySize ==> r == h + [s]
    ensures |h| >= MaxHistorySize ==> |r| == |h| && r[..|r| - 1] == h[1..]
  {
    if |h| >= MaxHistorySize then h[1..] + [s] else h + [s]
  }

  /** The log is first in, first out: it is always a suffix of everything ever
      appended, ending with the newest state. */
  lemma {:induction false} AppendAllIsSuffix(h: seq<State>, ss: seq<State>)
    requires |h| <= MaxHistorySize
    ensures var r := AppendAll(h, ss);
      |r| <= MaxHistorySize && |r| <= |h| + |ss| && r == (h + ss)[|h| + |ss| - |r|..]
    decreases |ss|
  {
    if |ss| > 0 {
      var prev := ss[..|ss| - 1];
      var s := ss[|ss| - 1];
      var x := h + prev;
      AppendAllIsSuffix(h, prev);
      var before := AppendAll(h, prev);
      assert before == x[|x| - |before|..];
      AppendKeepsSuffix(x, before, s);
      assert AppendAll(h, ss) == Append(before, s);
      assert ss == prev + [s];
      assert h + ss == x + [s];
    }
  }

  /** Appending one state to a bounded suffix of x gives a bounded suffix of x
      with that state appended. */
  lemma AppendKeepsSuffix(x: seq<State>, before: seq<State>, s: State)
    requires |before| <= MaxHistorySize && |before| <= |x|
    requires before == x[|x| - |before|..]
    ensures var r := Append(before, s);
      |r| <= MaxHistorySize && |r| <= |x| + 1 && r == (x + [s])[|x| + 1 - |r|..]
  {
    var k := |x| - |before|;
    if |before| >= MaxHistorySize {
      assert before[1..] == x[k + 1..];
      assert x[k + 1..] + [s] == (x + [s])[k + 1..];
    } else {
      assert x[k..] + [s] == (x + [s])[k..];
    }
  }


  function AppendAll(h: seq<State>, ss: seq<State>): seq<State>
    decreases |ss|
  {
    if |ss| == 0 then h else Append(AppendAll(h, ss[..|ss| - 1]), ss[|ss| - 1])
  }

  /** recordLog: the current state is appended to the history log. */
  function RecordLog(m: Memory, now: int): (r: Memory)
    ensures r.history == Append(m.history, CurrentState(m, now))
    ensures r.entries == m.entries && r.snapshots == m.snapshots && r.locked == m.locked
    ensures r.frozen == m.frozen && r.resolver == m.resolver
  {
    m.(history := Append(m.history, CurrentState(m, now)))
  }

  /** makeSnapshot: the current state is stored under the name, replacing an
      earlier snapshot of that name, and also recorded in the log. */
  function MakeSnapshot(m: Memory, name: string, now: int): (r: Memory)
    ensures r.snapshots == m.snapshots[name := CurrentState(m, now)]
    ensures r.history == Append(m.history, CurrentState(m, now))
    ensures r.entries == m.entries
  {
    RecordLog(m.(snapshots := m.snapshots[name := CurrentState(m, now)]), now)
  }

  /** getSnapshot: the snapshot of that name, if any. */
  function Snapshot(m: Memory, name: string): (r: Option<State>)
    ensures name in m.snapshots <==> r.Some?
    ensures r.Some? ==> r.value == m.snapshots[name]
  {
    if name in m.snapshots then Some(m.snapshots[name]) else None
  }

  /** lockTime: time is frozen at `now`, the wall clock at the call. */
  function LockTime(m: Memory, now: int): (r: Memory)
    ensures r.locked && r.frozen == now
    ensures r.entries == m.entries && r.history == m.history && r.resolver == m.resolver
  {
    m.(locked := true, frozen := now)
  }

  /** unlockTime: only the flag is cleared. */
  function UnlockTime(m: Memory): (r: Memory)
    ensures !r.locked && r.frozen == m.frozen
    ensures r.entries == m.entries && r.history == m.history && r.resolver == m.resolver
  {
    m.(locked := false)
  }

  /** getCurrentTimestamp, with the wall clock as a parameter. */
  function CurrentTimestamp(m: Memory, wall: int): int {
    if m.locked then m.frozen else wall
  }

  /** While locked, "now" is the moment of locking whatever the wall clock says, and
      writes do not move it; after unlocking it is the wall clock again. */
  lemma LockFreezesTime(m: Memory, t: int, wall: int, d: Domains, name: string, v: Value)
    ensures CurrentTimestamp(LockTime(m, t), wall) == t
    ensures CurrentTimestamp(UnlockTime(LockTime(m, t)), wall) == wall
    ensures Write(LockTime(m, t), d, name, v).Ok? ==> CurrentTimestamp(Write(LockTime(m, t), d, name, v).value, wall) == t
  {
  }

  /** setAmbiguityResolver. */
  function SetResolver(m: Memory, res: Resolver): (r: Memory)
    ensures r.resolver == res && r.entries == m.entries && r.locked == m.locked
  {
    m.(resolver := res)
  }

  /** The index of the first state taken at or after `t`. */
  function FirstAtOrAfter(states: seq<State>, t: int): (r: Option<nat>)
    ensures r.None? <==> forall i :: 0 <= i < |states| ==> states[i].ts < t
    ensures r.Some? ==> r.value < |states| && states[r.value].ts >= t
    ensures r.Some? ==> forall j :: 0 <= j < r.value ==> states[j].ts < t
    decreases |states|
  {
    if |states| == 0 then None
    else if states[0].ts >= t then Some(0)
    else
      var r := FirstAtOrAfter(states[1..], t);
      assert forall j :: 1 <= j < |states| ==> states[j] == states[1..][j - 1];
      if r.Some? then Some(r.value + 1) else None
  }

  /** The position findHistoricalState reads by state count in a log of `size`
      states. The long sum offset + size decides first: when it is negative the
      first state is read (getFirst, which fails on an empty log). Otherwise the
      offset is cast to int and added to the size in int arithmetic, and a position
      outside the log fails with IndexOutOfBounds. */
  function StartPosition(size: nat, offset: Long): (r: Result<nat>)
    ensures r.Ok? ==> r.value < size && r.value <= MaxInt
    ensures r.Fail? ==> r.error == NoSuchElement || r.error == IndexOutOfBounds
    ensures offset + size < 0 && size == 0 ==> r == Fail(NoSuchElement)
    ensures offset + size < 0 && size > 0 ==> r == Ok(0)
    ensures size <= MaxInt && 0 <= offset + size && offset < 0 ==> r == Ok(size + offset)
    ensures size <= MaxInt && 0 <= offset <= MaxInt - size ==> r == Fail(IndexOutOfBounds)
    ensures ToLong(offset + size) >= 0 ==>
              (r.Ok? <==> 0 <= ToInt(size + offset) < size) && (r.Ok? ==> r.value == ToInt(size + offset))
  {
    ToIntOfSum(size, offset);
    if ToLong(offset + size) < 0 then
      if size == 0 then Fail(NoSuchElement) else Ok(0)
    else
      var i := ToInt(size + ToInt(offset));
      if 0 <= i < size then Ok(i) else Fail(IndexOutOfBounds)
  }

  /** The casts at work: an offset of 2^32 - 1 is the int -1 and reads the last
      state, an offset of 2^32 is the int 0 and reads past the end, and the largest
      long makes the long sum wrap to a negative number and reads the first state. */
  lemma StartPositionWraps(size: nat)
    requires 1 <= size <= MaxInt
    ensures StartPosition(size, IntModulus - 1) == Ok(size - 1)
    ensures StartPosition(size, IntModulus) == Fail(IndexOutOfBounds)
    ensures StartPosition(size, MaxLong) == Ok(0)
  {
    ToIntPeriodic(size - 1, 1);
    ToIntPeriodic(size, 1);
    ToLongPeriodic(MaxLong + size - LongModulus, 1);
  }

  /** findHistoricalState by state count: the state at StartPosition. */
  function StateAtCount(states: seq<State>, offset: Long): (r: Result<State>)
    ensures r.Ok? <==> StartPosition(|states|, offset).Ok?
    ensures r.Ok? ==> r.value == states[StartPosition(|states|, offset).value]
    ensures r.Fail? ==> r.error == StartPosition(|states|, offset).error
    ensures |states| <= MaxInt && 0 <= offset + |states| && offset < 0 ==> r == Ok(states[|states| + offset])
    ensures offset + |states| < 0 && |states| > 0 ==> r == Ok(states[0])
  {
    match StartPosition(|states|, offset)
    case Fail(e) => Fail(e)
    case Ok(i) => Ok(states[i])
  }

  /** findHistoricalState by milliseconds: the first state taken at or after
      now + offset, a long sum, or an empty state when there is none. */
  function StateAtTime(states: seq<State>, offset: Long, now: int): (r: State)
    ensures var t := ToLong(now + offset);
      && ((forall i :: 0 <= i < |states| ==> states[i].ts < t) ==> r == EmptyState)
      && ((exists i :: 0 <= i < |states| && states[i].ts >= t) ==>
            exists i :: 0 <= i < |states| && r == states[i] && r.ts >= t &&
                        (forall j :: 0 <= j < i ==> states[j].ts < t))
  {
    match FirstAtOrAfter(states, ToLong(now + offset))
    case None => EmptyState
    case Some(i) => states[i]
  }

  /** findHistoricalState; `now` is getCurrentTimestamp at the call. */
  function FindHistoricalState(states: seq<State>, rt: Timestamp, now: int): (r: Result<State>)
    ensures rt.unit.MilisCount? ==> r == Ok(StateAtTime(states, rt.offset, now))
    ensures rt.unit.StateCount? ==> r == StateAtCount(states, rt.offset)
  {
    match rt.unit
    case MilisCount => Ok(StateAtTime(states, rt.offset, now))
    case StateCount => StateAtCount(states, rt.offset)
  }

  /** findHistoricalValue: the attribute's value in the state found. */
  function FindHistoricalValue(states: seq<State>, name: string, rt: Timestamp, now: int): (r: Result<Value>)
    ensures r.Ok? <==> FindHistoricalState(states, rt, now).Ok?
    ensures r.Ok? ==> r.value == StateValue(FindHistoricalState(states, rt, now).value, name)
  {
    match FindHistoricalState(states, rt, now)
    case Fail(e) => Fail(e)
    case Ok(s) => Ok(StateValue(s, name))
  }

  /** The number of Nulls the padding loop adds: the long counter starts at `d` and
      moves by `step` while it is negative. A positive step counts up to 0; a
      negative step counts down until the long sum wraps to a non-negative number.
      Only a step of 0 from a negative start never ends. */
  function PadCount(d: Long, step: Long): (n: nat)
    requires d >= 0 || step != 0
    decreases PadMeasure(d, step)
  {
    if d >= 0 then 0
    else
      PadStep(d, step);
      1 + PadCount(ToLong(d + step), step)
  }

  /** One step of the padding counter: exact unless a negative step passes below
      Long.MIN_VALUE, where it wraps to a number that is not negative. */
  lemma PadStep(d: Long, step: Long)
    requires d < 0
    ensures d + step >= MinLong ==> ToLong(d + step) == d + step
    ensures d + step < MinLong ==> ToLong(d + step) >= 0
  {
    if d + step < MinLong {
      ToLongPeriodic(d + step + LongModulus, -1);
    }
  }

  /** How far the padding counter is from ending: it counts up to 0 with a
      positive step, and down to the wrap below Long.MIN_VALUE with a negative one. */
  function PadMeasure(d: Long, step: Long): nat {
    if d >= 0 then 0 else if step > 0 then -(d as int) else (d as int) - MinLong + 1
  }

  /** The padding is the number of steps needed to cover the missing states; with
      a negative step it is the number of steps the counter takes down to
      Long.MIN_VALUE, plus the one that wraps. */
  lemma PadCountCovers(d: Long, step: Long)
    requires d >= 0 || step != 0
    ensures d >= 0 ==> PadCount(d, step) == 0
    ensures d < 0 && step > 0 ==> (PadCount(d, step) - 1) * step < -(d as int) <= PadCount(d, step) * step
    ensures d < 0 && step < 0 ==> PadCount(d, step) == ((d as int) - MinLong) / (-(step as int)) + 1
  {
    if d < 0 && step > 0 {
      PadCountUp(d, step);
    } else if d < 0 {
      PadCountDown(d, step);
    }
  }

  lemma {:induction false} PadCountUp(d: Long, step: Long)
    requires d < 0 && step > 0
    ensures (PadCount(d, step) - 1) * step < -(d as int) <= PadCount(d, step) * step
    decreases PadMeasure(d, step)
  {
    PadStep(d, step);
    var next := ToLong(d + step);
    assert next == d + step;
    var n := PadCount(next, step);
    assert PadCount(d, step) == n + 1;
    if next < 0 {
      PadCountUp(next, step);
    }
    assert (n + 1) * step == n * step + step;
  }

  lemma {:induction false} PadCountDown(d: Long, step: Long)
    requires d < 0 && step < 0
    ensures PadCount(d, step) == ((d as int) - MinLong) / (-(step as int)) + 1
    decreases PadMeasure(d, step)
  {
    PadStep(d, step);
    var s: int := -(step as int);
    var a: int := (d as int) - MinLong;
    if d + step >= MinLong {
      var next := ToLong(d + step);
      assert next == d + step;
      PadCountDown(next, step);
      assert PadCount(d, step) == PadCount(next, step) + 1;
      DivModUnique(a, s, (a - s) / s + 1, (a - s) % s);
    } else {
      assert PadCount(ToLong(d + step), step) == 0;
      DivModUnique(a, s, 0, a);
    }
  }

  function Nulls(n: nat): (r: seq<Value>)
    ensures |r| == n && forall i :: 0 <= i < n ==> r[i] == NullValue
  {
    if n == 0 then [] else Nulls(n - 1) + [NullValue]
  }

  /** Whether the sampling loop reads the state at `index`: the loop test compares
      the long difference index - to with the size, and a read outside the log
      throws IndexOutOfBounds, which ends the loop. */
  predicate Sampled(states: seq<State>, index: int, to: Long) {
    ToLong(index - to) <= |states| && 0 <= index < |states|
  }

  /** The next index of the sampling loop: `index += step` adds the long step and
      narrows the sum back to int. */
  function NextIndex(index: Int, step: Long): (r: Int)
    ensures r == ToInt(index + ToInt(step))
    ensures r == ToInt(index + step)
  {
    ToIntOfLong(index + step);
    ToIntOfSum(index, step);
    ToInt(ToLong(index + step))
  }

  /** The sampling loop advances whenever the step is not a multiple of 2^32: a
      positive step moves a sampled index up, or wraps it to a negative one; a
      negative step moves it down. */
  lemma NextIndexMoves(states: seq<State>, index: Int, to: Long, step: Long)
    requires Sampled(states, index, to)
    ensures var next := NextIndex(index, step);
      && (ToInt(step) > 0 ==> next > index || next < 0)
      && (ToInt(step) < 0 ==> next == index + ToInt(step))
  {
    var s := ToInt(step);
    if s > 0 && index + s > MaxInt {
      ToIntPeriodic(index + s - IntModulus, 1);
    }
  }

  /** The sampling loop: states from `index` on, the index moving by `step` in
      int arithmetic, while the index is within the log and the period's end. A
      step that is a multiple of 2^32 never moves the index, so the loop stops only
      when the first index is not sampled. */
  function Samples(states: seq<State>, name: string, index: Int, to: Long, step: Long): seq<Value>
    requires ToInt(step) != 0 || !Sampled(states, index, to)
    decreases if Sampled(states, index, to) then (if ToInt(step) > 0 then MaxInt + 1 - index else index + 1) else 0
  {
    if Sampled(states, index, to) then
      NextIndexMoves(states, index, to, step);
      [StateValue(states[index], name)] + Samples(states, name, NextIndex(index, step), to, step)
    else []
  }

  /** The index after k steps: index + k·step, narrowed to int. */
  function IndexAfter(index: Int, step: Long, k: nat): Int {
    ToInt(index + k * step)
  }

  lemma IndexAfterNext(index: Int, step: Long, k: nat)
    requires k > 0
    ensures IndexAfter(NextIndex(index, step), step, k - 1) == IndexAfter(index, step, k)
  {
    var next := NextIndex(index, step);
    ToIntOfSum((k - 1) * step, index + step);
    assert (k - 1) * step + (index + step) == index + k * step;
  }

  /** The samples are exactly the states at index, index + step, index + 2·step, …
      (in int arithmetic) for as long as they lie within the log and within the
      period's end. */
  lemma {:induction false} SamplesAt(states: seq<State>, name: string, index: Int, to: Long, step: Long)
    requires ToInt(step) != 0 || !Sampled(states, index, to)
    ensures var r := Samples(states, name, index, to, step);
      && (forall k: nat :: k < |r| ==>
            Sampled(states, IndexAfter(index, step, k), to) &&
            r[k] == StateValue(states[IndexAfter(index, step, k)], name))
      && !Sampled(states, IndexAfter(index, step, |r|), to)
    decreases if Sampled(states, index, to) then (if ToInt(step) > 0 then MaxInt + 1 - index else index + 1) else 0
  {
    var r := Samples(states, name, index, to, step);
    assert IndexAfter(index, step, 0) == index;
    if Sampled(states, index, to) {
      NextIndexMoves(states, index, to, step);
      var next := NextIndex(index, step);
      var rest := Samples(states, name, next, to, step);
      SamplesAt(states, name, next, to, step);
      assert r == [StateValue(states[index], name)] + rest;
      forall k: nat | k < |r|
        ensures Sampled(states, IndexAfter(index, step, k), to) &&
                r[k] == StateValue(states[IndexAfter(index, step, k)], name)
      {
        if k > 0 {
          IndexAfterNext(index, step, k);
          assert r[k] == rest[k - 1];
        }
      }
      IndexAfterNext(index, step, |r|);
    }
  }

  /** With step 1 the samples are the consecutive states from `index` up to the
      first index outside the log or past the period's end. */
  lemma {:induction false} SamplesUnitStep(states: seq<State>, name: string, index: Int, to: Long, end: Int)
    requires 0 <= index <= end && (forall i :: index <= i < end ==> Sampled(states, i, to)) && !Sampled(states, end, to)
    ensures index < end ==> end <= |states|
    ensures |Samples(states, name, index, to, 1)| == end - index
    ensures forall k :: 0 <= k < end - index ==>
              Samples(states, name, index, to, 1)[k] == StateValue(states[index + k], name)
    decreases end - index
  {
    if index < end {
      assert NextIndex(index, 1) == index + 1;
      SamplesUnitStep(states, name, index + 1, to, end);
      assert Sampled(states, index, to);
      assert Sampled(states, end - 1, to);
      var r := Samples(states, name, index, to, 1);
      var rest := Samples(states, name, index + 1, to, 1);
      assert r == [StateValue(states[index], name)] + rest;
      forall k | 0 <= k < end - index ensures r[k] == StateValue(states[index + k], name) {
        if k > 0 {
          assert r[k] == rest[k - 1];
          assert (index + 1) + (k - 1) == index + k;
        }
      }
    } else {
      assert !Sampled(states, index, to);
    }
  }

  /** The inputs on which the loops of findHistoricalValuesOverStatecount never
      end: a step of 0 with padding to do, or a step that is a multiple of 2^32
      with a first state to sample. */
  predicate WindowLoops(states: seq<State>, p: Period) {
    match StartPosition(|states|, p.from.offset)
    case Fail(_) => false
    case Ok(i) =>
      (ToLong(p.from.offset + |states|) < 0 && p.step == 0) ||
      (ToInt(p.step) == 0 && Sampled(states, i, p.to.offset))
  }

  /** findHistoricalValuesOverStatecount: the start state is looked up first (an
      out-of-range start gives no values at all, an empty log fails); then one Null
      for each step of the padding counter, then the samples from the start state
      on. Where the loops of the source never end, this refuses the period with
      IllegalArgument instead. */
  function WindowOverStateCount(states: seq<State>, p: Period, name: string): (r: Result<seq<Value>>)
    requires p.from.unit.StateCount?
    ensures StartPosition(|states|, p.from.offset) == Fail(IndexOutOfBounds) ==> r == Ok([])
    ensures StartPosition(|states|, p.from.offset) == Fail(NoSuchElement) ==> r == Fail(NoSuchElement)
    ensures r == Fail(IllegalArgument) <==> WindowLoops(states, p)
    ensures StartPosition(|states|, p.from.offset).Ok? && !WindowLoops(states, p) ==>
              var i := StartPosition(|states|, p.from.offset).value;
              r == Ok(Nulls(PadCount(ToLong(p.from.offset + |states|), p.step)) +
                      Samples(states, name, i, p.to.offset, p.step))
    ensures |states| <= MaxInt && 0 <= p.from.offset <= MaxInt - |states| ==> r == Ok([])
    ensures p.from.offset < 0 && |states| == 0 ==> r == Fail(NoSuchElement)
  {
    match StartPosition(|states|, p.from.offset)
    case Fail(e) => if e == IndexOutOfBounds then Ok([]) else Fail(e)
    case Ok(i) =>
      if WindowLoops(states, p) then Fail(IllegalArgument)
      else
        Ok(Nulls(PadCount(ToLong(p.from.offset + |states|), p.step)) +
           Samples(states, name, i, p.to.offset, p.step))
  }

  /** The window from -n to 0 states with step 1, for 1 <= n <= size, is the
      attribute's values in the last n states, oldest first. */
  lemma WindowOfLastStates(states: seq<State>, name: string, n: nat)
    requires 1 <= n <= |states| <= MaxInt
    ensures var r := WindowOverStateCount(states, Period(Timestamp(0 - n, StateCount), Timestamp(0, StateCount), 1), name);
      r.Ok? && |r.value| == n &&
      forall k :: 0 <= k < n ==> r.value[k] == StateValue(states[|states| - n + k], name)
  {
    var start := |states| - n;
    SamplesUnitStep(states, name, start, 0, |states|);
    assert Nulls(PadCount(start, 1)) == [];
  }

  /** A window reaching before the first state pads one Null per missing state
      (step 1) and then yields every recorded state up to the period's end. */
  lemma WindowPadsBeforeHistory(states: seq<State>, name: string, missing: nat)
    requires |states| > 0 && missing > 0 && |states| + missing <= MaxInt
    ensures var r := WindowOverStateCount(states, Period(Timestamp(0 - (|states| + missing), StateCount), Timestamp(0, StateCount), 1), name);
      r.Ok? && |r.value| == missing + |states| &&
      (forall k :: 0 <= k < missing ==> IsNull(r.value[k])) &&
      (forall k :: 0 <= k < |states| ==> r.value[missing + k] == StateValue(states[k], name))
  {
    PadCountCovers(0 - missing, 1);
    SamplesUnitStep(states, name, 0, 0, |states|);
  }

  /** A negative step walks back from the start state: the window from -n to 0
      with step -1 is the values of the states from the n-th last back to the
      first, newest first, and pads nothing. */
  lemma WindowWalksBack(states: seq<State>, name: string, n: nat)
    requires 1 <= n <= |states| <= MaxInt
    ensures var r := WindowOverStateCount(states, Period(Timestamp(0 - n, StateCount), Timestamp(0, StateCount), -1), name);
      r.Ok? && |r.value| == |states| - n + 1 &&
      forall k :: 0 <= k < |r.value| ==> r.value[k] == StateValue(states[|states| - n - k], name)
  {
    var start := |states| - n;
    var p := Period(Timestamp(0 - n, StateCount), Timestamp(0, StateCount), -1);
    assert StartPosition(|states|, 0 - n) == Ok(start);
    assert !WindowLoops(states, p);
    SamplesBackStep(states, name, start, 0);
    assert ToLong(0 - n + |states|) == start;
    PadCountCovers(start, -1);
    assert Nulls(PadCount(start, -1)) == [];
  }

  /** With step -1 the samples are the states from `index` back to the first,
      newest first, when every one of them is within the period's end. */
  lemma {:induction false} SamplesBackStep(states: seq<State>, name: string, index: Int, to: Long)
    requires -1 <= index < |states| && forall i :: 0 <= i <= index ==> Sampled(states, i, to)
    ensures |Samples(states, name, index, to, -1)| == index + 1
    ensures forall k :: 0 <= k <= index ==> Samples(states, name, index, to, -1)[k] == StateValue(states[index - k], name)
    decreases index + 1
  {
    if index >= 0 {
      assert Sampled(states, index, to);
      assert NextIndex(index, -1) == index - 1;
      SamplesBackStep(states, name, index - 1, to);
      var r := Samples(states, name, index, to, -1);
      var rest := Samples(states, name, index - 1, to, -1);
      assert r == [StateValue(states[index], name)] + rest;
      forall k | 0 <= k <= index ensures r[k] == StateValue(states[index - k], name) {
        if k > 0 {
          assert r[k] == rest[k - 1];
        }
      }
    } else {
      assert !Sampled(states, index, to);
    }
  }

  /** The padding loop as written, run for at most `fuel` rounds: the number of
      Nulls it adds, or None when it has not ended. */
  function PadLoop(d: Long, step: Long, fuel: nat): Option<nat>
    decreases fuel
  {
    if d >= 0 then Some(0)
    else if fuel == 0 then None
    else
      match PadLoop(ToLong(d + step), step, fuel - 1)
      case None => None
      case Some(n) => Some(n + 1)
  }

  /** The sampling loop as written, run for at most `fuel` rounds. */
  function SampleLoop(states: seq<State>, name: string, index: Int, to: Long, step: Long, fuel: nat): Option<seq<Value>>
    decreases fuel
  {
    if !Sampled(states, index, to) then Some([])
    else if fuel == 0 then None
    else
      match SampleLoop(states, name, NextIndex(index, step), to, step, fuel - 1)
      case None => None
      case Some(vs) => Some([StateValue(states[index], name)] + vs)
  }

  /** findHistoricalValuesOverStatecount as written, its loops run for at most
      `fuel` rounds each: None when a loop has not ended. */
  function WindowAsWritten(states: seq<State>, p: Period, name: string, fuel: nat): Option<Result<seq<Value>>>
    requires p.from.unit.StateCount?
  {
    match StartPosition(|states|, p.from.offset)
    case Fail(e) => Some(if e == IndexOutOfBounds then Ok([]) else Fail(e))
    case Ok(i) =>
      match (PadLoop(ToLong(p.from.offset + |states|), p.step, fuel), SampleLoop(states, name, i, p.to.offset, p.step, fuel))
      case (Some(n), Some(vs)) => Some(Ok(Nulls(n) + vs))
      case _ => None
  }

  lemma {:induction false} PadLoopAgrees(d: Long, step: Long, fuel: nat)
    ensures d < 0 && step == 0 ==> PadLoop(d, step, fuel).None?
    ensures PadLoop(d, step, fuel).Some? ==> (d >= 0 || step != 0) && PadLoop(d, step, fuel).value == PadCount(d, step)
    ensures (d >= 0 || step != 0) && fuel >= PadCount(d, step) ==> PadLoop(d, step, fuel) == Some(PadCount(d, step))
    decreases fuel
  {
    if d < 0 && fuel > 0 {
      PadLoopAgrees(ToLong(d + step), step, fuel - 1);
    }
  }

  lemma {:induction false} SampleLoopAgrees(states: seq<State>, name: string, index: Int, to: Long, step: Long, fuel: nat)
    ensures ToInt(step) == 0 && Sampled(states, index, to) ==> SampleLoop(states, name, index, to, step, fuel).None?
    ensures SampleLoop(states, name, index, to, step, fuel).Some? ==>
              (ToInt(step) != 0 || !Sampled(states, index, to)) &&
              SampleLoop(states, name, index, to, step, fuel).value == Samples(states, name, index, to, step)
    ensures (ToInt(step) != 0 || !Sampled(states, index, to)) && fuel >= |Samples(states, name, index, to, step)| ==>
              SampleLoop(states, name, index, to, step, fuel) == Some(Samples(states, name, index, to, step))
    decreases fuel
  {
    if Sampled(states, index, to) && fuel > 0 {
      SampleLoopAgrees(states, name, NextIndex(index, step), to, step, fuel - 1);
    }
  }

  /** The window as written ends with the corrected result whenever it ends, never
      ends on the inputs the corrected window refuses, and ends once the fuel covers
      the values it adds. */
  lemma WindowAsWrittenAgrees(states: seq<State>, p: Period, name: string, fuel: nat)
    requires p.from.unit.StateCount?
    ensures var r := WindowOverStateCount(states, p, name);
      && (r == Fail(IllegalArgument) ==> WindowAsWritten(states, p, name, fuel).None?)
      && (WindowAsWritten(states, p, name, fuel).Some? ==> WindowAsWritten(states, p, name, fuel).value == r)
      && (r != Fail(IllegalArgument) && (r.Ok? ==> fuel >= |r.value|) ==> WindowAsWritten(states, p, name, fuel) == Some(r))
  {
    match StartPosition(|states|, p.from.offset)
    case Fail(_) =>
    case Ok(i) =>
      PadLoopAgrees(ToLong(p.from.offset + |states|), p.step, fuel);
      SampleLoopAgrees(states, name, i, p.to.offset, p.step, fuel);
  }

  /** The non-ending windows: with four states, the period from -2 to 0 with step 0
      samples the state at position 2 forever, and the period from -5 to 0 with
      step 0 pads forever. */
  lemma ZeroStepNeverEnds(states: seq<State>, name: string, fuel: nat)
    requires |states| == 4
    ensures var p := Period(Timestamp(-2, StateCount), Timestamp(0, StateCount), 0);
      WindowOverStateCount(states, p, name) == Fail(IllegalArgument) && WindowAsWritten(states, p, name, fuel).None?
    ensures var p := Period(Timestamp(-5, StateCount), Timestamp(0, StateCount), 0);
      WindowOverStateCount(states, p, name) == Fail(IllegalArgument) && WindowAsWritten(states, p, name, fuel).None?
  {
    var p := Period(Timestamp(-2, StateCount), Timestamp(0, StateCount), 0);
    assert StartPosition(4, -2) == Ok(2);
    WindowAsWrittenAgrees(states, p, name, fuel);
    var q := Period(Timestamp(-5, StateCount), Timestamp(0, StateCount), 0);
    WindowAsWrittenAgrees(states, q, name, fuel);
  }
}
