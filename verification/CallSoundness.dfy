/** What passing and restoring mean for addresses: every word a value allows stays allowed. */
module CallSoundness {
  import opened Words
  import opened Identities
  import opened Values
  import opened Expressions
  import opened CallProjection
  import opened CalleeState

  /** The placement puts every bound token at a word its binding allows, and the callee's frame four bytes below a word
      the caller's stack pointer allows. */
  ghost predicate Realizes(p: Placement, bindings: Bindings, callerEsp: Value, context: Context) {
    && (forall token | token in bindings && token.Param? :: Denotes(p, bindings[token], p.base(token)))
    && Denotes(p, callerEsp, Wrap(p.base(Frame(context)) + 4))
  }

  lemma SameShift(x: int, y: int, d: int)
    requires Wrap(x) == Wrap(y)
    ensures Wrap(x + d) == Wrap(y + d)
  {
    WrapAdd(x, d);
    WrapAdd(y, d);
  }

  /** Two bases that agree at one pair of offsets agree at every pair as far away. */
  lemma SameWord(x: int, m: int, y: int, k: int, o: int, o': int)
    requires Wrap(x + m) == Wrap(y + k) && o' - m == o - k
    ensures Wrap(x + o') == Wrap(y + o)
  {
    SameShift(x + m, y + k, o - k);
    assert x + m + (o - k) == x + o' && y + k + (o - k) == y + o;
  }

  // ----- derived identities

  /** Rebuilding an identity over the actual object moves no address. */
  lemma {:induction false} InstantiatedAddress(p: Placement, id: Identity, actual: Identity, offset: int)
    requires CallParameterOwner(id).Some?
    requires Address(p, CallParameterOwner(id).value) == Wrap(Address(p, actual) + offset)
    ensures (var (other, moved) := InstantiateIdentity(id, actual, offset);
             Address(p, id) == Wrap(Address(p, other) + moved))
    decreases id
  {
    match id
    case Param(_, _) =>
    case Aligned(mask, base, derived) =>
      InstantiatedAddress(p, base, actual, offset);
      AlignedMoves(p, mask, base, derived, actual, offset);
  }

  lemma AlignedMoves(p: Placement, mask: Word, base: Identity, derived: int, actual: Identity, offset: int)
    requires CallParameterOwner(base).Some?
    requires (var (inner, moved) := InstantiateIdentity(base, actual, offset);
              Address(p, base) == Wrap(Address(p, inner) + moved))
    ensures (var (other, moved) := InstantiateIdentity(Aligned(mask, base, derived), actual, offset);
             Address(p, Aligned(mask, base, derived)) == Wrap(Address(p, other) + moved))
  {
    var (inner, moved) := InstantiateIdentity(base, actual, offset);
    WrapOfWord(Address(p, base));
    SameShift(Address(p, base), Address(p, inner) + moved, derived);
    WrapOfWord(Address(p, Aligned(mask, base, derived)));
  }

  lemma DerivedDenotes(p: Placement, a: Atom, actual: Atom, w: Word)
    requires CallParameterOwner(a.id).Some? && actual.Object? && AtomDenotes(p, a, w)
    requires AtomDenotes(p, actual, Address(p, CallParameterOwner(a.id).value))
    ensures AtomDenotes(p, Derived(a, actual), w)
  {
    InstantiatedAddress(p, a.id, actual.id, actual.offset);
    var (id, moved) := InstantiateIdentity(a.id, actual.id, actual.offset);
    if !a.View? {
      WrapOfWord(Address(p, a.id));
      SameShift(Address(p, a.id), Address(p, id) + moved, a.offset);
    }
  }

  // ----- joining bindings

  lemma {:induction false} JoinKeepsWord(p: Placement, v: Value, atoms: seq<Atom>, bindings: Bindings, limit: nat, w: Word)
    requires Denotes(p, v, w)
    ensures Denotes(p, JoinBindings(v, atoms, bindings, limit), w)
  {
    if atoms != [] {
      var n := |atoms| - 1;
      JoinKeepsWord(p, v, atoms[..n], bindings, limit, w);
      if IsToken(atoms[n]) && Bound(atoms[n], bindings) {
        JoinDenotes(p, JoinBindings(v, atoms[..n], bindings, limit), bindings[CallParameterOwner(atoms[n].id).value], limit, w);
      }
    }
  }

  lemma {:induction false} JoinTakesWord(p: Placement, v: Value, atoms: seq<Atom>, bindings: Bindings, limit: nat, a: Atom, w: Word)
    requires a in atoms && IsToken(a) && Bound(a, bindings) && Denotes(p, bindings[CallParameterOwner(a.id).value], w)
    ensures Denotes(p, JoinBindings(v, atoms, bindings, limit), w)
  {
    var n := |atoms| - 1;
    var before := JoinBindings(v, atoms[..n], bindings, limit);
    if atoms[n] == a {
      JoinDenotes(p, before, bindings[CallParameterOwner(a.id).value], limit, w);
    } else {
      JoinTakesWord(p, v, atoms[..n], bindings, limit, a, w);
      if IsToken(atoms[n]) && Bound(atoms[n], bindings) {
        JoinDenotes(p, before, bindings[CallParameterOwner(atoms[n].id).value], limit, w);
      }
    }
  }

  // ----- instantiation

  /** A reference that is no bound token contributes the reference that denotes its word. */
  lemma ContributedAtom(p: Placement, a: Atom, bindings: Bindings, callerEsp: Value, context: Context, w: Word) returns (b: Atom)
    requires Realizes(p, bindings, callerEsp, context) && AtomDenotes(p, a, w)
    requires InstantiatedRefs(a, bindings, context).Some? && !(Bound(a, bindings) && IsToken(a))
    ensures b in InstantiatedRefs(a, bindings, context).value && AtomDenotes(p, b, w)
  {
    if Bound(a, bindings) {
      var token := CallParameterOwner(a.id).value;
      TokenOwner(a.id);
      var actual := ExactAtom(p, bindings[token], p.base(token));
      DerivedDenotes(p, a, actual, w);
      b := Derived(a, actual);
    } else {
      b := a;
    }
  }

  lemma {:induction false} TokenOwner(id: Identity)
    requires CallParameterOwner(id).Some?
    ensures CallParameterOwner(id).value.Param?
  {
  }

  lemma ExactAtom(p: Placement, v: Value, w: Word) returns (a: Atom)
    requires ExactObjects(v) && Denotes(p, v, w)
    ensures a in v.refs && a.Object? && AtomDenotes(p, a, w)
  {
    a :| a in v.refs && AtomDenotes(p, a, w);
  }

  lemma InstantiationSound(p: Placement, v: Value, listed: seq<Atom>, callerEsp: Value, bindings: Bindings, context: Context,
                           limit: nat, w: Word)
    requires v.Finite? ==> forall a :: a in listed <==> a in v.refs
    requires Realizes(p, bindings, callerEsp, context) && Denotes(p, v, w)
    ensures Denotes(p, InstantiateParameterValue(v, listed, bindings, context, limit), w)
  {
    if v.Finite? && v.refs != {} && !exists a | a in v.refs :: InstantiatedRefs(a, bindings, context).None? {
      var refs := set a, b | a in v.refs && InstantiatedRefs(a, bindings, context).Some?
                             && b in InstantiatedRefs(a, bindings, context).value :: b;
      var start := Canonical(v.scalars, refs, StackLimit(limit));
      if w in v.scalars {
        CanonicalDenotes(p, v.scalars, refs, StackLimit(limit), w);
        JoinKeepsWord(p, start, listed, bindings, StackLimit(limit), w);
      } else {
        var a :| a in v.refs && AtomDenotes(p, a, w);
        AtomInstantiated(p, v, a, listed, callerEsp, bindings, context, limit, refs, w);
      }
    }
  }

  lemma AtomInstantiated(p: Placement, v: Value, a: Atom, listed: seq<Atom>, callerEsp: Value, bindings: Bindings,
                         context: Context, limit: nat, refs: set<Atom>, w: Word)
    requires v.Finite? && a in v.refs && a in listed && AtomDenotes(p, a, w) && Realizes(p, bindings, callerEsp, context)
    requires InstantiatedRefs(a, bindings, context).Some?
    requires forall b | b in InstantiatedRefs(a, bindings, context).value :: b in refs
    ensures Denotes(p, JoinBindings(Canonical(v.scalars, refs, StackLimit(limit)), listed, bindings, StackLimit(limit)), w)
  {
    var start := Canonical(v.scalars, refs, StackLimit(limit));
    if Bound(a, bindings) && IsToken(a) {
      WrapOfWord(p.base(a.id));
      JoinTakesWord(p, start, listed, bindings, StackLimit(limit), a, w);
    } else {
      var b := ContributedAtom(p, a, bindings, callerEsp, context, w);
      CanonicalDenotes(p, v.scalars, refs, StackLimit(limit), w);
      JoinKeepsWord(p, start, listed, bindings, StackLimit(limit), w);
    }
  }

  // ----- frames

  /** A frame reference denotes the same word as the stack reference that replaces it. */
  lemma FrameAtomRestored(p: Placement, a: Atom, refs: set<Atom>, bindings: Bindings, callerEsp: Value, context: Context, w: Word)
    returns (b: Atom)
    requires Realizes(p, bindings, callerEsp, context) && ExactObjects(callerEsp)
    requires a in refs && InCallerStack(a, context) && AtomDenotes(p, a, w)
    ensures b in RestoredRefs(refs, callerEsp.refs, context) && AtomDenotes(p, b, w)
  {
    var base := ExactAtom(p, callerEsp, Wrap(p.base(Frame(context)) + 4));
    b := Object(base.id, base.offset + a.offset - 4);
    SameWord(Address(p, base.id), base.offset, p.base(Frame(context)), 4, a.offset, b.offset);
    FrameAtomMoved(a, base, refs, callerEsp.refs, context);
  }

  lemma FrameAtomMoved(a: Atom, base: Atom, refs: set<Atom>, esp: set<Atom>, context: Context)
    requires a in refs && InCallerStack(a, context) && base in esp && base.Object?
    ensures Object(base.id, base.offset + a.offset - 4) in RestoredRefs(refs, esp, context)
  {
  }

  /** Every word a callee value allows is allowed by the restored value, for every value and every placement that the
      bindings and the caller's stack pointer allow. */
  lemma RestoreSound(p: Placement, v: Value, listed: seq<Atom>, callerEsp: Value, bindings: Bindings, context: Context,
                     limit: nat, w: Word)
    requires v.Finite? ==> forall a :: a in listed <==> a in v.refs
    requires Realizes(p, bindings, callerEsp, context) && Denotes(p, v, w)
    ensures Denotes(p, RestoreCalleeValue(v, listed, callerEsp, bindings, context, limit), w)
  {
    InstantiationSound(p, v, listed, callerEsp, bindings, context, limit, w);
    var value := InstantiateParameterValue(v, listed, bindings, context, limit);
    if value.Finite? { FramesSound(p, value, callerEsp, bindings, context, limit, w); }
  }

  lemma FramesSound(p: Placement, value: Value, callerEsp: Value, bindings: Bindings, context: Context, limit: nat, w: Word)
    requires Realizes(p, bindings, callerEsp, context) && value.Finite? && Denotes(p, value, w)
    ensures ((exists a | a in value.refs :: InCallerStack(a, context)) && !ExactObjects(callerEsp))
        || Denotes(p, Canonical(value.scalars, RestoredRefs(value.refs, if callerEsp.Finite? then callerEsp.refs else {}, context),
                                StackLimit(limit)), w)
  {
    var esp := if callerEsp.Finite? then callerEsp.refs else {};
    var refs := RestoredRefs(value.refs, esp, context);
    if w in value.scalars {
      CanonicalDenotes(p, value.scalars, refs, StackLimit(limit), w);
    } else {
      var a :| a in value.refs && AtomDenotes(p, a, w);
      if !InCallerStack(a, context) {
        assert a in refs;
        CanonicalDenotes(p, value.scalars, refs, StackLimit(limit), w);
      } else if ExactObjects(callerEsp) {
        var b := FrameAtomRestored(p, a, value.refs, bindings, callerEsp, context, w);
        CanonicalDenotes(p, value.scalars, refs, StackLimit(limit), w);
      }
    }
  }

  // ----- nothing else is allowed

  /** A token plus d, bound to one object at k, is restored as that object at k + d. */
  lemma TokenOffsetRestored(coordinate: CallCoordinate, d: int, o: Identity, k: int, callerEsp: Value, bindings: Bindings,
                            context: Context, limit: nat)
    requires Param(context, coordinate) in bindings && bindings[Param(context, coordinate)] == Finite({}, {Object(o, k)})
    requires CapturedStackOwner(o) != Some(Frame(context))
    ensures (var a := Object(Param(context, coordinate), d);
             RestoreCalleeValue(Finite({}, {a}), [a], callerEsp, bindings, context, limit) == Finite({}, {Object(o, k + d)}))
  {
    var a, b := Object(Param(context, coordinate), d), Object(o, k + d);
    TokenOffsetInstantiated(coordinate, d, o, k, bindings, context, limit);
    OnePlain(b, if callerEsp.Finite? then callerEsp.refs else {}, context, limit);
    NoFrameRestored(Finite({}, {a}), [a], {b}, callerEsp, bindings, context, limit);
  }

  lemma NoFrameRestored(v: Value, listed: seq<Atom>, refs: set<Atom>, callerEsp: Value, bindings: Bindings, context: Context,
                        limit: nat)
    requires v.Finite? && forall a :: a in listed <==> a in v.refs
    requires InstantiateParameterValue(v, listed, bindings, context, limit) == Finite({}, refs)
    requires forall a | a in refs :: !InCallerStack(a, context) && !DeadFrame(a, context)
    ensures RestoreCalleeValue(v, listed, callerEsp, bindings, context, limit)
         == Canonical({}, RestoredRefs(refs, if callerEsp.Finite? then callerEsp.refs else {}, context), StackLimit(limit))
  {
  }

  lemma OnePlain(b: Atom, esp: set<Atom>, context: Context, limit: nat)
    requires b.Object? && CapturedStackOwner(b.id) != Some(Frame(context))
    ensures forall a | a in {b} :: !InCallerStack(a, context) && !DeadFrame(a, context)
    ensures Canonical({}, RestoredRefs({b}, esp, context), StackLimit(limit)) == Finite({}, {b})
  {
    assert RestoredRefs({b}, esp, context) == {b};
    TokenExactHere(b, limit);
  }

  lemma TokenExactHere(b: Atom, limit: nat)
    requires b.Object?
    ensures Canonical({}, {b}, StackLimit(limit)) == Finite({}, {b})
  {
    SingletonCanonical(b, StackLimit(limit));
  }

  lemma TokenOffsetInstantiated(coordinate: CallCoordinate, d: int, o: Identity, k: int, bindings: Bindings, context: Context,
                                limit: nat)
    requires Param(context, coordinate) in bindings && bindings[Param(context, coordinate)] == Finite({}, {Object(o, k)})
    ensures (var a := Object(Param(context, coordinate), d);
             InstantiateParameterValue(Finite({}, {a}), [a], bindings, context, limit) == Finite({}, {Object(o, k + d)}))
  {
    var a, b, binding := Object(Param(context, coordinate), d), Object(o, k + d), Finite({}, {Object(o, k)});
    var v, listed := Finite({}, {a}), [a];
    var refs := set x, y | x in v.refs && InstantiatedRefs(x, bindings, context).Some?
                           && y in InstantiatedRefs(x, bindings, context).value :: y;
    assert listed[..0] == [];
    if d == 0 {
      assert InstantiatedRefs(a, bindings, context) == Some({});
      assert refs == {};
      assert JoinBindings(Bottom, listed, bindings, StackLimit(limit)) == binding;
    } else {
      OneDerived(a, binding, Object(o, k));
      assert InstantiatedRefs(a, bindings, context) == Some({b});
      assert refs == {b};
      TokenExactHere(b, limit);
      assert JoinBindings(Finite({}, {b}), listed, bindings, StackLimit(limit)) == Finite({}, {b});
    }
  }

  lemma OneDerived(a: Atom, binding: Value, actual: Atom)
    requires a.Object? && a.id.Param? && actual.Object? && binding == Finite({}, {actual})
    ensures ExactObjects(binding)
    ensures (set x | x in binding.refs && x.Object? :: Derived(a, x)) == {Object(actual.id, actual.offset + a.offset)}
  {
    assert Derived(a, actual) == Object(actual.id, actual.offset + a.offset);
  }

  // ----- into the callee

  /** The frame lies four bytes below every listed stack alternative. */
  ghost predicate FrameBelow(p: Placement, bases: map<Identity, int>, context: Context) {
    forall id | id in bases :: Wrap(p.base(Frame(context)) + 4) == Wrap(Address(p, id) + bases[id])
  }

  /** What the callee sees allows the word the caller passed, once its token stands for that word and its frame lies where
      the stack pointer says. */
  lemma PassedSound(p: Placement, coordinate: CallCoordinate, v: Value, relational: bool, context: Context,
                    stackAtoms: seq<Atom>, limit: nat, before: Bindings, w: Word)
    requires forall a | a in stackAtoms :: IsStackAtom(a)
    requires Denotes(p, v, w) && p.base(Param(context, coordinate)) == w && FrameBelow(p, StackBases(stackAtoms), context)
    ensures Denotes(p, ParameterizeCallValue(coordinate, v, relational, context, stackAtoms, limit, before).0, w)
  {
    var token, bases := Param(context, coordinate), StackBases(stackAtoms);
    if PassesUnchanged(v, relational) {
    } else if !relational && FrameRelative(v, bases) {
      FramePassed(p, v, bases, context, limit, w);
    } else {
      TokenPassed(p, token, limit, w);
    }
  }

  /** The binding of the callee's frame allows the frame's address when the frame lies four bytes below some stack
      alternative. */
  lemma FrameBindingSound(p: Placement, stackAtoms: seq<Atom>, context: Context, a: Atom)
    requires a in stackAtoms && a.Object? && Wrap(p.base(Frame(context)) + 4) == Wrap(Address(p, a.id) + a.offset)
    ensures Denotes(p, FrameBinding(stackAtoms), p.base(Frame(context)))
  {
    var refs := set b | b in stackAtoms :: Object(b.id, AtomOffset(b) - 4);
    var below := Object(a.id, a.offset - 4);
    SameShift(p.base(Frame(context)) + 4, Address(p, a.id) + a.offset, -4);
    WrapOfWord(p.base(Frame(context)));
    assert below in refs && AtomDenotes(p, below, p.base(Frame(context)));
    CanonicalDenotes(p, {}, refs, STACK_ALTERNATIVE_LIMIT, p.base(Frame(context)));
  }

  /** With no more alternatives than a stack value holds it allows nothing else. */
  lemma FrameBindingExact(p: Placement, stackAtoms: seq<Atom>, w: Word)
    requires |stackAtoms| <= STACK_ALTERNATIVE_LIMIT && forall a | a in stackAtoms :: a.Object?
    ensures Denotes(p, FrameBinding(stackAtoms), w) <==> exists a :: a in stackAtoms && FourBelow(p, a, w)
  {
    var refs := set b | b in stackAtoms :: Object(b.id, AtomOffset(b) - 4);
    ImageSize(stackAtoms);
    assert !HasView(refs);
    if Denotes(p, FrameBinding(stackAtoms), w) {
      var b :| b in refs && AtomDenotes(p, b, w);
      var a :| a in stackAtoms && b == Object(a.id, AtomOffset(a) - 4);
      assert FourBelow(p, a, w);
    }
    if a :| a in stackAtoms && FourBelow(p, a, w) {
      var b := Object(a.id, AtomOffset(a) - 4);
      assert b in refs && AtomDenotes(p, b, w);
    }
  }

  predicate FourBelow(p: Placement, a: Atom, w: Word)
    requires a.Object?
  {
    w == Wrap(Address(p, a.id) + a.offset - 4)
  }

  lemma {:induction false} ImageSize(stackAtoms: seq<Atom>)
    ensures |set b | b in stackAtoms :: Object(b.id, AtomOffset(b) - 4)| <= |stackAtoms|
  {
    if stackAtoms != [] {
      var rest, last := stackAtoms[..|stackAtoms| - 1], stackAtoms[|stackAtoms| - 1];
      ImageSize(rest);
      assert stackAtoms == rest + [last];
      var few := set b | b in rest :: Object(b.id, AtomOffset(b) - 4);
      var all := set b | b in stackAtoms :: Object(b.id, AtomOffset(b) - 4);
      assert all == few + {Object(last.id, AtomOffset(last) - 4)};
    }
  }

  lemma FramePassed(p: Placement, v: Value, bases: map<Identity, int>, context: Context, limit: nat, w: Word)
    requires FrameRelative(v, bases) && v.scalars == {} && Denotes(p, v, w) && FrameBelow(p, bases, context)
    ensures Denotes(p, Canonical({}, FrameRefs(v.refs, bases, context), StackLimit(limit)), w)
  {
    var a :| a in v.refs && AtomDenotes(p, a, w);
    var b := Object(Frame(context), a.offset - bases[a.id] + 4);
    SameWord(p.base(Frame(context)), 4, Address(p, a.id), bases[a.id], a.offset, b.offset);
    assert b in FrameRefs(v.refs, bases, context) && AtomDenotes(p, b, w);
    CanonicalDenotes(p, {}, FrameRefs(v.refs, bases, context), StackLimit(limit), w);
  }

  lemma TokenPassed(p: Placement, token: Identity, limit: nat, w: Word)
    requires token.Param? && p.base(token) == w
    ensures Denotes(p, Canonical({}, {Object(token, 0)}, limit), w)
  {
    WrapOfWord(w);
    assert AtomDenotes(p, Object(token, 0), w);
    CanonicalDenotes(p, {}, {Object(token, 0)}, limit, w);
  }
}
