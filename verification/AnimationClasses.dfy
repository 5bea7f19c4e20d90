/** Class changes of angular-animate.js: resolving a request against an element, and merging requests. */
module AnimationClasses {
  type ClassName = string

  /** The addClass and removeClass options of a request. */
  datatype Change = Change(add: set<ClassName>, remove: set<ClassName>) {
    predicate Empty() {
      add == {} && remove == {}
    }
  }

  const NO_CHANGE := Change({}, {})

  /** `applyAnimationClasses`: the additions first, then the removals. */
  function Apply(classes: set<ClassName>, c: Change): set<ClassName> {
    classes + c.add - c.remove
  }

  // ---------- resolveElementClasses ----------

  datatype Flag = AddClass | RemoveClass | Cancelled

  function Names(tokens: seq<ClassName>): set<ClassName> {
    set t | t in tokens && t != ""
  }

  function Resolve(existing: set<ClassName>, toAdd: set<ClassName>, toRemove: set<ClassName>): Change {
    Change(toAdd - toRemove - existing, (toRemove - toAdd) * existing)
  }

  ghost predicate Distinct(s: seq<ClassName>) {
    forall i, j :: 0 <= i < j < |s| ==> s[i] != s[j]
  }

  /** `splitClassesToLookup`: the keys of the lookup, each class once and no empty name. */
  method SplitClassesToLookup(tokens: seq<ClassName>) returns (keys: seq<ClassName>)
    ensures Distinct(keys) && "" !in keys
    ensures forall k :: k in keys <==> k in Names(tokens)
  {
    keys := [];
    for i := 0 to |tokens|
      invariant Distinct(keys) && "" !in keys
      invariant forall k :: k in keys <==> k in Names(tokens[..i])
    {
      assert tokens[..i + 1] == tokens[..i] + [tokens[i]];
      if tokens[i] != "" && tokens[i] !in keys {
        keys := keys + [tokens[i]];
      }
    }
    assert tokens[..|tokens|] == tokens;
  }

  function FlagOf(k: ClassName, additions: seq<ClassName>, removals: seq<ClassName>): Flag {
    if k !in removals then AddClass else if k in additions then Cancelled else RemoveClass
  }

  /** The flag of every class a request mentions; `keys` is the order in which the flags were set. */
  method FlagClasses(additions: seq<ClassName>, removals: seq<ClassName>)
      returns (flags: map<ClassName, Flag>, keys: seq<ClassName>)
    requires Distinct(additions) && Distinct(removals)
    ensures Distinct(keys)
    ensures forall k :: k in keys <==> k in additions || k in removals
    ensures forall k :: k in keys ==> k in flags && flags[k] == FlagOf(k, additions, removals)
  {
    flags, keys := map k | k in additions :: AddClass, additions;
    for i := 0 to |removals|
      invariant Distinct(keys) && forall k :: k in keys <==> k in flags
      invariant forall k :: k in flags <==> k in additions || k in removals[..i]
      invariant forall k :: k in flags ==> flags[k] == FlagOf(k, additions, removals[..i])
    {
      var klass := removals[i];
      assert removals[..i + 1] == removals[..i] + [klass] && klass !in removals[..i];
      if klass !in flags {
        keys := keys + [klass];
      }
      flags := flags[klass := if klass in flags && flags[klass] == AddClass then Cancelled else RemoveClass];
    }
    assert removals[..|removals|] == removals;
  }

  /**
   * `resolveElementClasses` on split class lists: a class asked for both ways is left alone, and only
   * additions that are absent and removals that are present survive, each once.
   */
  method ResolveElementClasses(existing: seq<ClassName>, toAdd: seq<ClassName>, toRemove: seq<ClassName>)
      returns (addClass: seq<ClassName>, removeClass: seq<ClassName>)
    ensures Distinct(addClass) && Distinct(removeClass) && "" !in addClass && "" !in removeClass
    ensures Change(Names(addClass), Names(removeClass)) == Resolve(Names(existing), Names(toAdd), Names(toRemove))
  {
    var present := SplitClassesToLookup(existing);
    var additions := SplitClassesToLookup(toAdd);
    var removals := SplitClassesToLookup(toRemove);
    var flags, keys := FlagClasses(additions, removals);
    addClass, removeClass := [], [];
    for i := 0 to |keys|
      invariant Distinct(addClass) && Distinct(removeClass)
      invariant forall k :: k in addClass <==> k in keys[..i] && flags[k] == AddClass && k !in present
      invariant forall k :: k in removeClass <==> k in keys[..i] && flags[k] == RemoveClass && k in present
    {
      var klass := keys[i];
      assert keys[..i + 1] == keys[..i] + [klass] && klass !in keys[..i];
      if flags[klass] == AddClass && klass !in present {
        addClass := addClass + [klass];
      } else if flags[klass] == RemoveClass && klass in present {
        removeClass := removeClass + [klass];
      }
    }
    assert keys[..|keys|] == keys;
  }

  // ---------- mergeAnimationDetails ----------

  /** The change left after merging a new request into a pending one. */
  function Merge(classes: set<ClassName>, pending: Change, c: Change): Change {
    Resolve(classes, pending.add + c.add, pending.remove + c.remove)
  }

  /** What a pending change keeps: additions absent, removals present. */
  predicate Normal(classes: set<ClassName>, c: Change) {
    c.add !! classes && c.remove <= classes
  }

  function MergeAll(classes: set<ClassName>, pending: Change, changes: seq<Change>): Change
    decreases changes
  {
    if changes == [] then pending else MergeAll(classes, Merge(classes, pending, changes[0]), changes[1..])
  }

  function ApplyAll(classes: set<ClassName>, changes: seq<Change>): set<ClassName>
    decreases changes
  {
    if changes == [] then classes else ApplyAll(Apply(classes, changes[0]), changes[1..])
  }

  /** One merge is one application, unless it both adds and removes a class the element has. */
  lemma MergeStep(classes: set<ClassName>, pending: Change, c: Change)
    requires Normal(classes, pending)
    ensures Normal(classes, Merge(classes, pending, c)) && pending.add !! pending.remove
    ensures Apply(classes, Merge(classes, pending, c)) == Apply(Apply(classes, pending), c)
            <==> c.add * c.remove * classes == {}
  {
    var merged := Apply(classes, Merge(classes, pending, c));
    var inOrder := Apply(Apply(classes, pending), c);
    forall k ensures (k in merged) == (k in inOrder) <==> k !in c.add * c.remove * classes {
    }
    if merged == inOrder {
      assert forall k :: k !in c.add * c.remove * classes;
    }
  }

  /** The last request that mentions the class asks for it both ways. */
  predicate ClashesLast(k: ClassName, changes: seq<Change>) {
    changes != [] &&
    var c := changes[|changes| - 1];
    if k in c.add + c.remove then k in c.add * c.remove else ClashesLast(k, changes[..|changes| - 1])
  }

  lemma {:induction false} MergeAllSnoc(classes: set<ClassName>, pending: Change, changes: seq<Change>, c: Change)
    ensures MergeAll(classes, pending, changes + [c]) == Merge(classes, MergeAll(classes, pending, changes), c)
    decreases changes
  {
    if changes == [] {
      assert ([] + [c])[1..] == [];
    } else {
      assert (changes + [c])[0] == changes[0] && (changes + [c])[1..] == changes[1..] + [c];
      MergeAllSnoc(classes, Merge(classes, pending, changes[0]), changes[1..], c);
    }
  }

  lemma {:induction false} ApplyAllSnoc(classes: set<ClassName>, changes: seq<Change>, c: Change)
    ensures ApplyAll(classes, changes + [c]) == Apply(ApplyAll(classes, changes), c)
    decreases changes
  {
    if changes == [] {
      assert ([] + [c])[1..] == [];
    } else {
      assert (changes + [c])[0] == changes[0] && (changes + [c])[1..] == changes[1..] + [c];
      ApplyAllSnoc(Apply(classes, changes[0]), changes[1..], c);
    }
  }

  /** Class by class: the merged change and the requests in order disagree exactly on a last clash. */
  lemma {:induction false} MergedClassByClass(classes: set<ClassName>, changes: seq<Change>)
    ensures Normal(classes, MergeAll(classes, NO_CHANGE, changes))
    ensures forall k :: (k in Apply(classes, MergeAll(classes, NO_CHANGE, changes))
                         <==> k in ApplyAll(classes, changes))
                        <==> !(k in classes && ClashesLast(k, changes))
    decreases |changes|
  {
    if changes != [] {
      var front, c := changes[..|changes| - 1], changes[|changes| - 1];
      assert changes == front + [c];
      MergedClassByClass(classes, front);
      MergeAllSnoc(classes, NO_CHANGE, front, c);
      ApplyAllSnoc(classes, front, c);
    }
  }

  /**
   * The one merged change leaves the classes that the requests in order would leave, exactly when no
   * class of the element is last mentioned by a request that both adds and removes it.
   */
  lemma MergedEqualsInOrder(classes: set<ClassName>, changes: seq<Change>)
    ensures Apply(classes, MergeAll(classes, NO_CHANGE, changes)) == ApplyAll(classes, changes)
            <==> forall k :: k in classes ==> !ClashesLast(k, changes)
  {
    var merged := Apply(classes, MergeAll(classes, NO_CHANGE, changes));
    MergedClassByClass(classes, changes);
    if merged == ApplyAll(classes, changes) {
      forall k | k in classes ensures !ClashesLast(k, changes) {
        assert k in merged <==> k in ApplyAll(classes, changes);
      }
    }
    if forall k :: k in classes ==> !ClashesLast(k, changes) {
      assert forall k :: k in merged <==> k in ApplyAll(classes, changes);
    }
  }

  /** Asked both ways for a class it has, an element keeps it when merging and loses it otherwise. */
  lemma ClashingRequestDiffers(x: ClassName)
    ensures var changes := [Change({x}, {x})];
            && Apply({x}, MergeAll({x}, NO_CHANGE, changes)) == {x}
            && ApplyAll({x}, changes) == {}
  {
    var changes := [Change({x}, {x})];
    assert changes[1..] == [];
    assert MergeAll({x}, Merge({x}, NO_CHANGE, changes[0]), []) == NO_CHANGE;
  }
}
