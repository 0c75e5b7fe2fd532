/** Passing caller values into a callee and back: words become symbolic tokens or frame-relative offsets,
    and the return path substitutes them. */
module CallProjection {
  import opened Words
  import opened Sets
  import opened Identities
  import opened Values

  type Bindings = map<Identity, Value>

  // ----- into the callee

  /** An exact pointer into some frame or parameter, and nothing else. */
  predicate ParameterizableCallValue(v: Value) {
    && v.Finite? && v.scalars == {} && v.refs != {}
    && forall a | a in v.refs ::
         a.Object? && (CapturedStackOwner(a.id).Some? || CallParameterOwner(a.id).Some?)
  }

  predicate IsStackAtom(a: Atom) { a.Object? && CapturedStackOwner(a.id).Some? }

  /** The base offset of each stack object the caller's stack pointer may name; a later listing wins. */
  function StackBases(stackAtoms: seq<Atom>): (bases: map<Identity, int>)
    requires forall a | a in stackAtoms :: IsStackAtom(a)
    ensures forall id | id in bases :: Object(id, bases[id]) in stackAtoms
  {
    if stackAtoms == [] then map[]
    else
      var last := stackAtoms[|stackAtoms| - 1];
      assert last in stackAtoms && IsStackAtom(last);
      assert last == Object(last.id, last.offset);
      StackBases(stackAtoms[..|stackAtoms| - 1])[last.id := last.offset]
  }

  predicate FrameRelative(v: Value, bases: map<Identity, int>) {
    v.Finite? && forall a | a in v.refs :: a.Object? && a.id in bases && a.offset >= bases[a.id]
  }

  function FrameRefs(refs: set<Atom>, bases: map<Identity, int>, context: Context): set<Atom> {
    set a | a in refs && a.Object? && a.id in bases :: Object(Frame(context), a.offset - bases[a.id] + 4)
  }

  predicate PassesUnchanged(v: Value, relational: bool) {
    v.Bottom? || (!relational && !ParameterizableCallValue(v))
  }

  /** parameterize_call_value: the callee's view of a word, and the bindings that undo it. */
  function ParameterizeCallValue(coordinate: CallCoordinate, v: Value, relational: bool, context: Context,
                                 stackAtoms: seq<Atom>, limit: nat, bindings: Bindings): (Value, Bindings)
    requires forall a | a in stackAtoms :: IsStackAtom(a)
  {
    if PassesUnchanged(v, relational) then (v, bindings)
    else
      var token := Param(context, coordinate);
      var bound := bindings[token := v];
      var bases := StackBases(stackAtoms);
      if !relational && FrameRelative(v, bases) then
        (Canonical({}, FrameRefs(v.refs, bases, context), StackLimit(limit)), bound)
      else
        (Canonical({}, {Object(token, 0)}, limit), bound)
  }

  // ----- back to the caller

  /** instantiate_call_parameter_identity: rebuilds a derived identity over the actual object. */
  function InstantiateIdentity(id: Identity, actual: Identity, offset: int): (Identity, int)
    requires CallParameterOwner(id).Some?
  {
    match id
    case Param(_, _) => (actual, offset)
    case Aligned(mask, base, derived) =>
      var (inner, innerOffset) := InstantiateIdentity(base, actual, offset);
      (Aligned(mask, inner, innerOffset + derived), 0)
  }

  predicate OwnedByCallee(id: Identity, context: Context) {
    CallParameterOwner(id).Some? && CallParameterOwner(id).value.context == context
  }

  predicate Bound(a: Atom, bindings: Bindings) {
    CallParameterOwner(a.id).Some? && CallParameterOwner(a.id).value in bindings
  }

  /** The token itself, as opposed to something derived from it. */
  predicate IsToken(a: Atom) { a.Object? && a.id.Param? && a.offset == 0 }

  predicate ExactObjects(v: Value) {
    v.Finite? && v.scalars == {} && forall a | a in v.refs :: a.Object?
  }

  function Derived(a: Atom, actual: Atom): Atom
    requires CallParameterOwner(a.id).Some? && actual.Object?
  {
    var (id, offset) := InstantiateIdentity(a.id, actual.id, actual.offset);
    if a.View? then View(id) else Object(id, offset + a.offset)
  }

  /** What one atom contributes besides direct token bindings; None is the conflict return. */
  function InstantiatedRefs(a: Atom, bindings: Bindings, context: Context): Option<set<Atom>> {
    if !Bound(a, bindings) then
      if OwnedByCallee(a.id, context) then None else Some({a})
    else if IsToken(a) then Some({})
    else
      var binding := bindings[CallParameterOwner(a.id).value];
      if !ExactObjects(binding) then None
      else Some(set actual | actual in binding.refs && actual.Object? :: Derived(a, actual))
  }

  function JoinBindings(v: Value, atoms: seq<Atom>, bindings: Bindings, limit: nat): Value {
    if atoms == [] then v
    else
      var n := |atoms| - 1;
      var before := JoinBindings(v, atoms[..n], bindings, limit);
      if IsToken(atoms[n]) && Bound(atoms[n], bindings)
      then Join(before, bindings[CallParameterOwner(atoms[n].id).value], limit) else before
  }

  /** instantiate_parameter_value, reading the alternatives in the order they are listed. */
  function InstantiateParameterValue(v: Value, listed: seq<Atom>, bindings: Bindings, context: Context, limit: nat): Value
    requires v.Finite? ==> forall a :: a in listed <==> a in v.refs
  {
    if !v.Finite? || v.refs == {} then v
    else if exists a | a in v.refs :: InstantiatedRefs(a, bindings, context).None? then Conflict
    else
      var refs := set a, b | a in v.refs && InstantiatedRefs(a, bindings, context).Some?
                             && b in InstantiatedRefs(a, bindings, context).value :: b;
      JoinBindings(Canonical(v.scalars, refs, StackLimit(limit)), listed, bindings, StackLimit(limit))
  }

  predicate InCallerStack(a: Atom, context: Context) { a.Object? && a.id == Frame(context) && a.offset >= 4 }

  predicate DeadFrame(a: Atom, context: Context) {
    !InCallerStack(a, context) && !a.Other? && CapturedStackOwner(a.id) == Some(Frame(context))
  }

  function RestoredRefs(refs: set<Atom>, esp: set<Atom>, context: Context): set<Atom> {
    (set a | a in refs && !InCallerStack(a, context))
      + (set a, base | a in refs && base in esp && InCallerStack(a, context) && base.Object?
           :: Object(base.id, base.offset + a.offset - 4))
  }

  /** restore_callee_value: tokens are replaced by their bindings, frame offsets by caller stack offsets. */
  function RestoreCalleeValue(v: Value, listed: seq<Atom>, callerEsp: Value, bindings: Bindings,
                              context: Context, limit: nat): Value
    requires v.Finite? ==> forall a :: a in listed <==> a in v.refs
  {
    var value := InstantiateParameterValue(v, listed, bindings, context, limit);
    if !value.Finite? then value
    else if exists a | a in value.refs :: DeadFrame(a, context) then Conflict
    else if (exists a | a in value.refs :: InCallerStack(a, context)) && !ExactObjects(callerEsp) then Conflict
    else
      var esp := if callerEsp.Finite? then callerEsp.refs else {};
      Canonical(value.scalars, RestoredRefs(value.refs, esp, context), StackLimit(limit))
  }

  // ----- the round trip

  predicate NamesCallee(v: Value, context: Context) {
    v.Finite? && exists a | a in v.refs ::
      CapturedStackOwner(a.id) == Some(Frame(context)) || OwnedByCallee(a.id, context)
  }

  /** Bindings made for one callee: its own tokens only. */
  predicate BindingsOf(bindings: Bindings, context: Context) {
    forall id | id in bindings :: id.Param? && id.context == context
  }

  /** The caller's stack pointer, and its stack alternatives as they are listed. */
  predicate StackListing(callerEsp: Value, stackAtoms: seq<Atom>) {
    && (forall a | a in stackAtoms :: IsStackAtom(a))
    && (forall a | a in stackAtoms :: callerEsp.Finite? && a in callerEsp.refs)
    && (callerEsp.Finite? ==> forall a | a in callerEsp.refs && IsStackAtom(a) :: a in stackAtoms)
  }

  predicate SingleAlternative(v: Value) { v.Finite? && |v.scalars| + |v.refs| == 1 }

  lemma {:induction false} NoTokensJoined(v: Value, atoms: seq<Atom>, bindings: Bindings, limit: nat)
    requires forall a | a in atoms :: !Bound(a, bindings)
    ensures JoinBindings(v, atoms, bindings, limit) == v
  {
    if atoms != [] {
      NoTokensJoined(v, atoms[..|atoms| - 1], bindings, limit);
      assert atoms[|atoms| - 1] in atoms;
    }
  }

  /** A value that names nothing of the callee's comes back as it is. */
  lemma ForeignValueRestored(v: Value, listed: seq<Atom>, callerEsp: Value, bindings: Bindings, context: Context, limit: nat)
    requires v.Finite? ==> forall a :: a in listed <==> a in v.refs
    requires IsCanonical(v, StackLimit(limit)) && !NamesCallee(v, context) && BindingsOf(bindings, context)
    ensures RestoreCalleeValue(v, listed, callerEsp, bindings, context, limit) == v
  {
    PlainRefsRestored(v, callerEsp, context, limit);
    if v.Finite? && v.refs != {} {
      forall a | a in v.refs ensures !Bound(a, bindings) && !OwnedByCallee(a.id, context) { }
      Uninstantiated(v, listed, bindings, context, limit);
    }
  }

  /** Instantiation leaves a value alone whose atoms are unbound and not the callee's. */
  lemma Uninstantiated(v: Value, listed: seq<Atom>, bindings: Bindings, context: Context, limit: nat)
    requires v.Finite? && v.refs != {} && IsCanonical(v, StackLimit(limit))
    requires forall a :: a in listed <==> a in v.refs
    requires forall a | a in v.refs :: !Bound(a, bindings) && !OwnedByCallee(a.id, context)
    ensures InstantiateParameterValue(v, listed, bindings, context, limit) == v
  {
    var refs := set a, b | a in v.refs && InstantiatedRefs(a, bindings, context).Some?
                           && b in InstantiatedRefs(a, bindings, context).value :: b;
    assert refs == v.refs by {
      forall a | a in v.refs ensures InstantiatedRefs(a, bindings, context) == Some({a}) { }
    }
    CanonicalFixed(v, StackLimit(limit));
    NoTokensJoined(v, listed, bindings, StackLimit(limit));
  }

  lemma TokenIsExact(token: Identity, limit: nat)
    requires limit > 0
    ensures Canonical({}, {Object(token, 0)}, limit) == Finite({}, {Object(token, 0)})
  {
    var none: set<Word> := {};
    assert |none| + |{Object(token, 0)}| == 1;
  }

  /** A token comes back as the word it was bound to. */
  lemma TokenRestored(coordinate: CallCoordinate, v: Value, listed: seq<Atom>, callerEsp: Value, bindings: Bindings,
                      context: Context, limit: nat)
    requires forall a :: a in listed <==> a == Object(Param(context, coordinate), 0)
    requires |listed| == 1
    requires Param(context, coordinate) in bindings && bindings[Param(context, coordinate)] == v
    requires IsCanonical(v, StackLimit(limit)) && !NamesCallee(v, context) && BindingsOf(bindings, context)
    ensures RestoreCalleeValue(Finite({}, {Object(Param(context, coordinate), 0)}), listed, callerEsp, bindings, context, limit) == v
  {
    var token := Object(Param(context, coordinate), 0);
    var value := Finite({}, {token});
    assert listed[0] in listed && listed == [token];
    assert InstantiatedRefs(token, bindings, context) == Some({});
    var refs := set a, b | a in value.refs && InstantiatedRefs(a, bindings, context).Some?
                           && b in InstantiatedRefs(a, bindings, context).value :: b;
    assert refs == {};
    var start := Canonical({}, refs, StackLimit(limit));
    assert start == Bottom;
    assert listed[..0] == [];
    assert JoinBindings(start, listed, bindings, StackLimit(limit)) == v;
    assert InstantiateParameterValue(value, listed, bindings, context, limit) == v;
    PlainRefsRestored(v, callerEsp, context, limit);
  }

  lemma PlainRefsRestored(v: Value, callerEsp: Value, context: Context, limit: nat)
    requires IsCanonical(v, StackLimit(limit)) && !NamesCallee(v, context)
    ensures v.Finite? ==> forall a | a in v.refs :: !InCallerStack(a, context) && !DeadFrame(a, context)
    ensures v.Finite? ==> forall esp :: Canonical(v.scalars, RestoredRefs(v.refs, esp, context), StackLimit(limit)) == v
  {
    if v.Finite? {
      forall a | a in v.refs ensures !InCallerStack(a, context) && !DeadFrame(a, context) {
        assert CapturedStackOwner(a.id) != Some(Frame(context));
      }
      CanonicalFixed(v, StackLimit(limit));
      assert forall esp :: RestoredRefs(v.refs, esp, context) == v.refs;
    }
  }

  lemma FrameRefsInsert(rest: set<Atom>, a: Atom, bases: map<Identity, int>, context: Context)
    ensures FrameRefs(rest + {a}, bases, context)
         == FrameRefs(rest, bases, context)
            + (if a.Object? && a.id in bases then {Object(Frame(context), a.offset - bases[a.id] + 4)} else {})
  {
  }

  lemma {:induction false} FrameRefsCard(refs: set<Atom>, bases: map<Identity, int>, context: Context)
    ensures |FrameRefs(refs, bases, context)| <= |refs|
  {
    if refs != {} {
      var a :| a in refs;
      var rest := refs - {a};
      FrameRefsCard(rest, bases, context);
      FrameRefsInsert(rest, a, bases, context);
      assert refs == rest + {a};
    }
  }

  /** Frame-relative alternatives are exact: the projection never collapses them. */
  lemma FrameValueExact(v: Value, bases: map<Identity, int>, context: Context, limit: nat)
    requires v.Finite? && v.scalars == {} && v.refs != {} && IsCanonical(v, StackLimit(limit))
    requires FrameRelative(v, bases)
    ensures Canonical({}, FrameRefs(v.refs, bases, context), StackLimit(limit))
         == Finite({}, FrameRefs(v.refs, bases, context))
  {
    var refs := FrameRefs(v.refs, bases, context);
    FrameRefsCard(v.refs, bases, context);
    var a :| a in v.refs;
    assert Object(Frame(context), a.offset - bases[a.id] + 4) in refs;
    assert !HasView(refs);
    var none: set<Word> := {};
    assert |none| == 0;
  }

  lemma FrameValueRestored(v: Value, stackAtoms: seq<Atom>, listed: seq<Atom>, callerEsp: Value, bindings: Bindings,
                           context: Context, limit: nat)
    requires StackListing(callerEsp, stackAtoms)
    requires v.Finite? && v.scalars == {} && v.refs != {} && IsCanonical(v, StackLimit(limit))
    requires FrameRelative(v, StackBases(stackAtoms))
    requires forall a :: a in listed <==> a in FrameRefs(v.refs, StackBases(stackAtoms), context)
    requires BindingsOf(bindings, context)
    ensures var frame := Finite({}, FrameRefs(v.refs, StackBases(stackAtoms), context));
            var restored := RestoreCalleeValue(frame, listed, callerEsp, bindings, context, limit);
            Below(v, restored) && (SingleAlternative(callerEsp) ==> restored == v)
  {
    var bases := StackBases(stackAtoms);
    var frame := Finite({}, FrameRefs(v.refs, bases, context));
    assert FrameInstantiated(frame, listed, bindings, context, limit) by {
      FrameValueExact(v, bases, context, limit);
      FrameTokensAbsent(frame, listed, bindings, context, limit);
    }
    FrameRestoredShape(frame, listed, callerEsp, bindings, context, limit);
    if ExactObjects(callerEsp) {
      BackCovers(v, bases, callerEsp.refs, context);
      if SingleAlternative(callerEsp) { BackExact(v, bases, callerEsp.refs, context); }
      RestoredAbove(v, RestoredRefs(frame.refs, callerEsp.refs, context), StackLimit(limit));
    } else if SingleAlternative(callerEsp) {
      SingleHasNoStack(v, stackAtoms, callerEsp);
    }
  }

  lemma RestoredAbove(v: Value, restored: set<Atom>, limit: nat)
    requires v.Finite? && v.scalars == {} && v.refs != {} && IsCanonical(v, limit) && v.refs <= restored
    ensures Below(v, Canonical({}, restored, limit))
    ensures restored == v.refs ==> Canonical({}, restored, limit) == v
  {
    CanonicalAbove({}, restored, limit, {}, v.refs);
    CanonicalFixed(v, limit);
  }

  lemma FrameRestoredShape(frame: Value, listed: seq<Atom>, callerEsp: Value, bindings: Bindings,
                           context: Context, limit: nat)
    requires frame.Finite? && frame.scalars == {} && forall a :: a in listed <==> a in frame.refs
    requires FrameInstantiated(frame, listed, bindings, context, limit)
    ensures RestoreCalleeValue(frame, listed, callerEsp, bindings, context, limit)
         == if ExactObjects(callerEsp)
            then Canonical({}, RestoredRefs(frame.refs, callerEsp.refs, context), StackLimit(limit))
            else Conflict
  {
  }

  ghost predicate FrameInstantiated(frame: Value, listed: seq<Atom>, bindings: Bindings, context: Context, limit: nat)
    requires frame.Finite? && forall a :: a in listed <==> a in frame.refs
  {
    && InstantiateParameterValue(frame, listed, bindings, context, limit) == frame
    && frame.refs != {}
    && forall a | a in frame.refs :: InCallerStack(a, context) && !DeadFrame(a, context)
  }

  lemma FrameTokensAbsent(frame: Value, listed: seq<Atom>, bindings: Bindings, context: Context, limit: nat)
    requires frame.Finite? && forall a :: a in listed <==> a in frame.refs
    requires frame.scalars == {} && frame.refs != {} && forall a | a in frame.refs :: InCallerStack(a, context)
    requires Canonical({}, frame.refs, StackLimit(limit)) == frame
    ensures FrameInstantiated(frame, listed, bindings, context, limit)
  {
    FrameIsCanonical(frame, context, limit);
    Uninstantiated(frame, listed, bindings, context, limit);
  }

  lemma FrameIsCanonical(frame: Value, context: Context, limit: nat)
    requires frame.Finite? && frame.scalars == {} && frame.refs != {}
    requires Canonical({}, frame.refs, StackLimit(limit)) == frame
    ensures IsCanonical(frame, StackLimit(limit))
  {
    CanonicalIsCanonical({}, frame.refs, StackLimit(limit));
  }

  /** Every base the projection used is an alternative of the caller's stack pointer. */
  ghost predicate BasesFrom(bases: map<Identity, int>, esp: set<Atom>) {
    forall id | id in bases :: Object(id, bases[id]) in esp
  }

  lemma BackCoversOne(a: Atom, refs: set<Atom>, bases: map<Identity, int>, esp: set<Atom>, context: Context)
    requires a in refs && a.Object? && a.id in bases && a.offset >= bases[a.id] && BasesFrom(bases, esp)
    ensures a in RestoredRefs(FrameRefs(refs, bases, context), esp, context)
  {
    var base, inFrame := Object(a.id, bases[a.id]), Object(Frame(context), a.offset - bases[a.id] + 4);
    FrameIntro(refs, bases, context, a);
    assert Object(base.id, base.offset + inFrame.offset - 4) == a;
    RestoredIntro(FrameRefs(refs, bases, context), esp, context, inFrame, base);
  }

  lemma FrameIntro(refs: set<Atom>, bases: map<Identity, int>, context: Context, a: Atom)
    requires a in refs && a.Object? && a.id in bases
    ensures Object(Frame(context), a.offset - bases[a.id] + 4) in FrameRefs(refs, bases, context)
  {
  }

  lemma RestoredIntro(refs: set<Atom>, esp: set<Atom>, context: Context, inFrame: Atom, base: Atom)
    requires inFrame in refs && base in esp && InCallerStack(inFrame, context) && base.Object?
    ensures Object(base.id, base.offset + inFrame.offset - 4) in RestoredRefs(refs, esp, context)
  {
  }

  lemma BackCovers(v: Value, bases: map<Identity, int>, esp: set<Atom>, context: Context)
    requires FrameRelative(v, bases) && BasesFrom(bases, esp)
    ensures v.refs <= RestoredRefs(FrameRefs(v.refs, bases, context), esp, context)
  {
    forall a | a in v.refs ensures a in RestoredRefs(FrameRefs(v.refs, bases, context), esp, context) {
      BackCoversOne(a, v.refs, bases, esp, context);
    }
  }

  lemma OnlyMember<T>(s: set<T>, x: T, y: T)
    requires |s| == 1 && x in s && y in s
    ensures x == y
  {
    if x != y {
      SubsetCard({x, y}, s);
    }
  }

  lemma BackTarget(refs: set<Atom>, bases: map<Identity, int>, esp: set<Atom>, context: Context, inFrame: Atom, base: Atom)
    requires |esp| == 1 && base in esp && base.Object? && BasesFrom(bases, esp)
    requires inFrame in FrameRefs(refs, bases, context)
    ensures inFrame.Object? && Object(base.id, base.offset + inFrame.offset - 4) in refs
  {
    var a :| a in refs && a.Object? && a.id in bases && inFrame == Object(Frame(context), a.offset - bases[a.id] + 4);
    OnlyMember(esp, base, Object(a.id, bases[a.id]));
    assert a == Object(base.id, base.offset + inFrame.offset - 4);
  }

  lemma BackExact(v: Value, bases: map<Identity, int>, esp: set<Atom>, context: Context)
    requires FrameRelative(v, bases) && BasesFrom(bases, esp) && |esp| == 1
    ensures RestoredRefs(FrameRefs(v.refs, bases, context), esp, context) == v.refs
  {
    var refs := FrameRefs(v.refs, bases, context);
    BackCovers(v, bases, esp, context);
    forall inFrame | inFrame in refs ensures InCallerStack(inFrame, context) { }
    forall b | b in RestoredRefs(refs, esp, context) ensures b in v.refs {
      var inFrame, base :| inFrame in refs && base in esp && InCallerStack(inFrame, context) && base.Object?
                        && b == Object(base.id, base.offset + inFrame.offset - 4);
      BackTarget(v.refs, bases, esp, context, inFrame, base);
    }
  }

  /** With one alternative that is not an exact object, no value is frame relative. */
  lemma SingleHasNoStack(v: Value, stackAtoms: seq<Atom>, callerEsp: Value)
    requires StackListing(callerEsp, stackAtoms) && SingleAlternative(callerEsp) && !ExactObjects(callerEsp)
    requires v.Finite? && v.refs != {}
    ensures !FrameRelative(v, StackBases(stackAtoms))
  {
    var bases := StackBases(stackAtoms);
    if FrameRelative(v, bases) {
      var a :| a in v.refs;
      var base := Object(a.id, bases[a.id]);
      assert base in callerEsp.refs;
      assert |callerEsp.refs| >= 1 by { SubsetCard({base}, callerEsp.refs); }
      assert callerEsp.scalars == {} && |callerEsp.refs| == 1;
      forall b | b in callerEsp.refs ensures b.Object? { OnlyMember(callerEsp.refs, b, base); }
      assert false;
    }
  }

  /** Parameterising a caller word for a callee and restoring it covers the word, and gives back exactly the
      word when the caller's stack pointer has one alternative. */
  lemma CallRoundTrip(coordinate: CallCoordinate, v: Value, relational: bool, context: Context, stackAtoms: seq<Atom>,
                      limit: nat, before: Bindings, bindings: Bindings, callerEsp: Value, listed: seq<Atom>)
    requires StackListing(callerEsp, stackAtoms) && limit > 0
    requires IsCanonical(v, StackLimit(limit)) && !NamesCallee(v, context) && BindingsOf(bindings, context)
    requires var (passed, bound) := ParameterizeCallValue(coordinate, v, relational, context, stackAtoms, limit, before);
             && (Param(context, coordinate) in bound && !PassesUnchanged(v, relational) ==>
                   Param(context, coordinate) in bindings && bindings[Param(context, coordinate)] == v)
             && (passed.Finite? ==> |listed| == |passed.refs| && forall a :: a in listed <==> a in passed.refs)
    ensures var passed := ParameterizeCallValue(coordinate, v, relational, context, stackAtoms, limit, before).0;
            var restored := RestoreCalleeValue(passed, listed, callerEsp, bindings, context, limit);
            Below(v, restored) && (SingleAlternative(callerEsp) ==> restored == v)
  {
    BelowReflexive(v);
    if PassesUnchanged(v, relational) {
      ForeignValueRestored(v, listed, callerEsp, bindings, context, limit);
    } else if !relational && FrameRelative(v, StackBases(stackAtoms)) {
      FrameValueExact(v, StackBases(stackAtoms), context, limit);
      FrameValueRestored(v, stackAtoms, listed, callerEsp, bindings, context, limit);
    } else {
      TokenIsExact(Param(context, coordinate), limit);
      TokenRestored(coordinate, v, listed, callerEsp, bindings, context, limit);
    }
  }
}
