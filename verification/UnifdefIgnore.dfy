/** The two stacks of the machine, read off the directives of the open groups: the state of each group, and
    whether comments are left alone in it. */
module UnifdefIgnore {
  import opened Preprocessor
  import opened UnifdefMachine
  import opened UnifdefPreservation
  import opened UnifdefTheorems

  /** An open group: its #if and its #elifs as they were classified, and whether it has reached its #else. */
  datatype Group = Group(first: Linetype, elifs: seq<Linetype>, inElse: bool)

  function Groups(xs: seq<Input>): seq<Group> {
    if xs == [] then []
    else
      var gs, x := Groups(Front(xs)), Last(xs);
      match x.line
      case IfLine(_) => gs + [Group(x.lt, [], false)]
      case ElifLine(_) => if gs == [] then [] else Front(gs) + [Last(gs).(elifs := Last(gs).elifs + [x.lt])]
      case ElseLine => if gs == [] then [] else Front(gs) + [Last(gs).(inElse := true)]
      case EndifLine => if gs == [] then [] else Front(gs)
      case TextLine(_) => gs
  }

  // ---------- what the directives of a group say

  /** A condition is gone by only where the directive is on one line. */
  predicate SaysTrue(t: Linetype) {
    t.Directive? && !t.dodgy && (t.kind.TrueI? || t.kind.True? || t.kind.ElTrue?)
  }

  predicate SaysFalse(t: Linetype) {
    t.Directive? && !t.dodgy && (t.kind.FalseI? || t.kind.False? || t.kind.ElFalse?)
  }

  predicate AnyTrue(ts: seq<Linetype>) {
    exists i | 0 <= i < |ts| :: SaysTrue(ts[i])
  }

  predicate AllFalse(ts: seq<Linetype>) {
    forall i | 0 <= i < |ts| :: SaysFalse(ts[i])
  }

  function Branches(g: Group): seq<Linetype> {
    [g.first] + g.elifs
  }

  /** The branches before the one that is open. */
  function Earlier(g: Group): seq<Linetype> {
    if g.inElse then Branches(g) else Front(Branches(g))
  }

  /** The open branch is not known to be skipped. */
  predicate MayRun(g: Group) {
    !AnyTrue(Earlier(g)) && (g.inElse || !SaysFalse(Last(Branches(g))))
  }

  /** What is in all these groups is printed. */
  predicate Shown(gs: seq<Group>) {
    forall i | 0 <= i < |gs| :: MayRun(gs[i])
  }

  /** The state of a group, from what its earlier branches and the open one say. */
  function StateFor(shown: bool, anyTrue: bool, allFalse: bool, t: Linetype, inElse: bool): Ifstate {
    if !shown || anyTrue then (if inElse then FalseElse else FalseTrailer)
    else if inElse then (if allFalse then TrueElse else PassElse)
    else if SaysTrue(t) then (if allFalse then TruePrefix else TrueMiddle)
    else if SaysFalse(t) then (if allFalse then FalsePrefix else FalseMiddle)
    else PassMiddle
  }

  function StateOf(shown: bool, g: Group): Ifstate {
    StateFor(shown, AnyTrue(Earlier(g)), AllFalse(Earlier(g)), Last(Branches(g)), g.inElse)
  }

  predicate Ignored(t: Linetype) {
    t.Directive? && (t.kind.TrueI? || t.kind.FalseI?)
  }

  /** Opened by a symbol given with -i, no #elif since. */
  predicate Promised(g: Group) {
    Ignored(g.first) && g.elifs == []
  }

  /** Opened by an ignored symbol, in printed text, by a directive that is not on one line. */
  predicate Loose(shown: bool, g: Group) {
    shown && Ignored(g.first) && g.first.dodgy
  }

  /** Still in the hands of such a symbol after an #elif: the #if was passed on because it was not on one line,
      and its first #elif was turned into an #else, which the second one ended. */
  predicate Lingers(shown: bool, g: Group) {
    Loose(shown, g) && 0 < |g.elifs| <= 2 && g.elifs[0] == Directive(ElTrue, false)
  }

  predicate Holds(shown: bool, g: Group) {
    Promised(g) || Lingers(shown, g)
  }

  ghost predicate LevelIs(m: Machine, gs: seq<Group>, d: nat)
    requires Valid(m) && 0 < d <= m.depth == |gs|
  {
    && m.ifstate[d] == StateOf(Shown(gs[..d - 1]), gs[d - 1])
    && m.ignoring[d] == (m.ignoring[d - 1] || Holds(Shown(gs[..d - 1]), gs[d - 1]))
  }

  /** The stacks are what the open groups make them. */
  ghost predicate StacksAre(m: Machine, gs: seq<Group>) {
    && Valid(m) && |gs| == m.depth && m.ifstate[0] == Outside && !m.ignoring[0]
    && forall d: nat | 0 < d <= m.depth :: LevelIs(m, gs, d)
  }

  /** The levels below k stay as they are. */
  lemma LevelsBelow(m: Machine, gs: seq<Group>, n: Machine, gs': seq<Group>, k: nat)
    requires StacksAre(m, gs) && Valid(n) && |gs'| == n.depth && k <= m.depth && k <= n.depth
    requires n.ifstate[..k + 1] == m.ifstate[..k + 1] && n.ignoring[..k + 1] == m.ignoring[..k + 1] && gs'[..k] == gs[..k]
    ensures n.ifstate[0] == Outside && !n.ignoring[0]
    ensures forall d: nat | 0 < d <= k :: LevelIs(n, gs', d)
  {
    hide StateOf, Shown, Holds;
    assert n.ifstate[0] == n.ifstate[..k + 1][0] && n.ignoring[0] == n.ignoring[..k + 1][0];
    forall d: nat | 0 < d <= k ensures LevelIs(n, gs', d) {
      assert LevelIs(m, gs, d);
      assert gs'[..d - 1] == gs'[..k][..d - 1] == gs[..d - 1] && gs'[d - 1] == gs'[..k][d - 1] == gs[d - 1];
      assert n.ifstate[d] == n.ifstate[..k + 1][d] && n.ignoring[d] == n.ignoring[..k + 1][d];
      assert n.ignoring[d - 1] == n.ignoring[..k + 1][d - 1];
    }
  }

  // ---------- one directive

  lemma TopState(m: Machine, gs: seq<Group>)
    requires StacksAre(m, gs)
    ensures Printing(m.ifstate[m.depth]) == Shown(gs)
  {
    if gs != [] {
      assert LevelIs(m, gs, m.depth);
      assert gs == gs[..m.depth - 1] + [gs[m.depth - 1]];
    }
  }

  predicate Ignores(a: Action) {
    a.Oiffy? || a.Idrop? || a.Itrue? || a.Ifalse?
  }

  lemma OpeningIgnores(a: Action, m: Machine, l: Line, iocccok: bool)
    requires Valid(m) && Opening(a) && Perform(a, m, l, iocccok).Running?
    ensures m.depth < MAXDEPTH - 1
    ensures var n := Perform(a, m, l, iocccok).m;
            && n.depth == m.depth + 1
            && n.ifstate == m.ifstate[m.depth + 1 := OpensAs(a)]
            && n.ignoring == m.ignoring[m.depth + 1 := m.ignoring[m.depth] || Ignores(a)]
  {
    OpeningSummary(a, m, l, iocccok);
    hide First, WithIgnore;
    FirstLeaves(m, l, OpensAs(a).PassMiddle?, OpensAs(a));
    FirstIgnores(m, l, OpensAs(a).PassMiddle?, OpensAs(a));
  }

  lemma FirstLeaves(m: Machine, l: Line, keep: bool, s: Ifstate)
    requires Valid(m) && m.depth < MAXDEPTH - 1
    ensures First(m, l, keep, s).Running?
    ensures var n := First(m, l, keep, s).m;
            && n.depth == m.depth + 1 && n.ifstate == m.ifstate[m.depth + 1 := s]
            && n.ignoring == m.ignoring[m.depth + 1 := m.ignoring[m.depth]]
  {
  }

  lemma FirstIgnores(m: Machine, l: Line, keep: bool, s: Ifstate)
    requires Valid(m) && m.depth < MAXDEPTH - 1
    ensures var n := WithIgnore(First(m, l, keep, s)).m;
            && n.depth == m.depth + 1 && n.ifstate == m.ifstate[m.depth + 1 := s] && n.ignoring == m.ignoring[m.depth + 1 := true]
  {
  }

  lemma OpensTable(s: Ifstate, x: Input)
    requires Classified(x) && x.line.IfLine?
    ensures var a := Transition(s, x.lt);
            && Opening(a) && Ignores(a) == Ignored(x.lt)
            && OpensAs(a) == StateFor(Printing(s), false, true, x.lt, false)
  {
  }

  lemma FirstBranch(shown: bool, t: Linetype)
    ensures StateOf(shown, Group(t, [], false)) == StateFor(shown, false, true, t, false)
    ensures Holds(shown, Group(t, [], false)) == Ignored(t)
  {
    assert Branches(Group(t, [], false)) == [t];
  }

  lemma OpensGroup(m: Machine, x: Input, iocccok: bool, gs: seq<Group>)
    requires StacksAre(m, gs) && Classified(x) && x.line.IfLine? && Step(m, x, iocccok).Running?
    ensures StacksAre(Step(m, x, iocccok).m, gs + [Group(x.lt, [], false)])
  {
    TopState(m, gs);
    OpensTable(m.ifstate[m.depth], x);
    OpeningIgnores(Transition(m.ifstate[m.depth], x.lt), m, x.line, iocccok);
    FirstBranch(Shown(gs), x.lt);
    hide StateOf, Holds, Shown, Transition, Perform, Classified;
    var n, gs' := Step(m, x, iocccok).m, gs + [Group(x.lt, [], false)];
    assert gs'[..m.depth] == gs[..m.depth] == gs;
    LevelsBelow(m, gs, n, gs', m.depth);
    assert LevelIs(n, gs', n.depth);
  }

  predicate LeavesIgnore(a: Action) {
    a.Selse? || a.Pelse? || a.Delse? || a.Mtrue? || a.Melif? || a.Melse?
  }

  /** The #elifs that are turned into an #else or an #endif. */
  predicate ElifLeaves(s: Ifstate, t: Linetype) {
    s.TrueMiddle? || ((s.PassMiddle? || s.FalseMiddle?) && t == Directive(ElTrue, false))
  }

  lemma MiddleIgnores(a: Action, m: Machine, l: Line, iocccok: bool)
    requires Valid(m) && Middle(a) && m.depth > 0 && Perform(a, m, l, iocccok).Running?
    ensures var n := Perform(a, m, l, iocccok).m;
            && n.depth == m.depth
            && n.ifstate == m.ifstate[m.depth := NewState(a)]
            && n.ignoring == if LeavesIgnore(a) then m.ignoring else m.ignoring[m.depth := m.ignoring[m.depth - 1]]
  {
  }

  /** The table under an #elif or #else, on states described by what the branches say. */
  lemma MiddleTable(shown: bool, anyTrue: bool, allFalse: bool, t: Linetype, x: Input)
    requires Classified(x) && (x.line.ElifLine? || x.line.ElseLine?)
    requires Middle(Transition(StateFor(shown, anyTrue, allFalse, t, false), x.lt))
    ensures var s, any, all := StateFor(shown, anyTrue, allFalse, t, false), anyTrue || SaysTrue(t), allFalse && SaysFalse(t);
            var a := Transition(s, x.lt);
            && NewState(a) == StateFor(shown, any, all, x.lt, x.line.ElseLine?)
            && (x.line.ElseLine? ==> LeavesIgnore(a))
            && (x.line.ElifLine? ==> LeavesIgnore(a) == ElifLeaves(s, x.lt))
  {
  }

  lemma NoBranchAfterElse(shown: bool, anyTrue: bool, allFalse: bool, t: Linetype, x: Input)
    requires Classified(x) && (x.line.ElifLine? || x.line.ElseLine?)
    ensures !Middle(Transition(StateFor(shown, anyTrue, allFalse, t, true), x.lt))
  {
  }

  /** What the branches say, one by one. */
  lemma SaysMore(ts: seq<Linetype>)
    requires ts != []
    ensures AnyTrue(ts) == (AnyTrue(Front(ts)) || SaysTrue(Last(ts)))
    ensures AllFalse(ts) == (AllFalse(Front(ts)) && SaysFalse(Last(ts)))
  {
    assert ts == Front(ts) + [Last(ts)];
  }

  function WithElif(g: Group, t: Linetype): Group {
    g.(elifs := g.elifs + [t])
  }

  lemma ElifState(shown: bool, g: Group, t: Linetype)
    requires !g.inElse
    ensures var any, all := AnyTrue(Front(Branches(g))), AllFalse(Front(Branches(g)));
            var last := Last(Branches(g));
            && StateOf(shown, g) == StateFor(shown, any, all, last, false)
            && StateOf(shown, WithElif(g, t)) == StateFor(shown, any || SaysTrue(last), all && SaysFalse(last), t, false)
            && StateOf(shown, g.(inElse := true)) == StateFor(shown, any || SaysTrue(last), all && SaysFalse(last), last, true)
  {
    SaysMore(Branches(g));
    assert Branches(WithElif(g, t)) == Branches(g) + [t];
    assert Front(Branches(WithElif(g, t))) == Branches(g);
    assert Branches(g.(inElse := true)) == Branches(g);
  }

  /** Which #elifs leave the flag, and that the group is then one that lingers. */
  lemma ElifHolds(shown: bool, g: Group, t: Linetype)
    requires !g.inElse
    ensures Holds(shown, WithElif(g, t)) == (ElifLeaves(StateOf(shown, g), t) && Holds(shown, g))
  {
    var bs := Branches(g);
    ElifState(shown, g, t);
    if g.elifs == [] {
      assert bs == [g.first] && Front(bs) == [];
    } else {
      assert Front(bs)[0] == g.first;
      if |g.elifs| == 1 {
        assert bs == [g.first, g.elifs[0]] && Front(bs) == [g.first];
      } else {
        assert Front(bs)[1] == g.elifs[0];
      }
    }
  }

  lemma ElseHolds(shown: bool, g: Group)
    ensures Holds(shown, g.(inElse := true)) == Holds(shown, g)
  {
  }

  function NextGroup(g: Group, x: Input): Group {
    if x.line.ElseLine? then g.(inElse := true) else WithElif(g, x.lt)
  }

  /** An #elif or #else of a group: its new state, and whether the flag is left as it is. */
  lemma GroupGoesOn(shown: bool, g: Group, x: Input)
    requires Classified(x) && (x.line.ElifLine? || x.line.ElseLine?) && Middle(Transition(StateOf(shown, g), x.lt))
    ensures var a := Transition(StateOf(shown, g), x.lt);
            && NewState(a) == StateOf(shown, NextGroup(g, x))
            && Holds(shown, NextGroup(g, x)) == (LeavesIgnore(a) && Holds(shown, g))
  {
    var any, all, t := AnyTrue(Earlier(g)), AllFalse(Earlier(g)), Last(Branches(g));
    if g.inElse { NoBranchAfterElse(shown, any, all, t, x); }
    hide Transition, Classified, Holds, NewState, AnyTrue, AllFalse;
    ElifState(shown, g, x.lt);
    MiddleTable(shown, any, all, t, x);
    ElifHolds(shown, g, x.lt);
    ElseHolds(shown, g);
  }

  lemma BranchesGroup(m: Machine, x: Input, iocccok: bool, gs: seq<Group>)
    requires StacksAre(m, gs) && Classified(x) && (x.line.ElifLine? || x.line.ElseLine?) && Step(m, x, iocccok).Running?
    ensures gs != [] && StacksAre(Step(m, x, iocccok).m, Front(gs) + [NextGroup(Last(gs), x)])
  {
    hide StateOf, Holds, Shown, Transition, Perform, Step, Classified, NewState, NextGroup, LeavesIgnore, Middle, LevelIs;
    MiddleStep(m, x, iocccok);
    TopLevel(m, gs);
    GroupGoesOn(Shown(Front(gs)), Last(gs), x);
    var n, gs' := Step(m, x, iocccok).m, Front(gs) + [NextGroup(Last(gs), x)];
    assert gs'[..m.depth - 1] == gs[..m.depth - 1] == Front(gs);
    LevelsBelow(m, gs, n, gs', m.depth - 1);
    TopIs(n, gs');
  }

  lemma MiddleStep(m: Machine, x: Input, iocccok: bool)
    requires Valid(m) && Classified(x) && (x.line.ElifLine? || x.line.ElseLine?) && m.ifstate[0] == Outside
    requires Step(m, x, iocccok).Running?
    ensures m.depth > 0 && Middle(Transition(m.ifstate[m.depth], x.lt))
    ensures var n, a := Step(m, x, iocccok).m, Transition(m.ifstate[m.depth], x.lt);
            && n.depth == m.depth && n.ifstate == m.ifstate[m.depth := NewState(a)]
            && n.ignoring == if LeavesIgnore(a) then m.ignoring else m.ignoring[m.depth := m.ignoring[m.depth - 1]]
  {
    hide Transition, Perform, NewState;
    MiddleActions(m, x, iocccok);
    MiddleIgnores(Transition(m.ifstate[m.depth], x.lt), m, x.line, iocccok);
  }

  lemma TopLevel(m: Machine, gs: seq<Group>)
    requires StacksAre(m, gs) && m.depth > 0
    ensures m.ifstate[m.depth] == StateOf(Shown(Front(gs)), Last(gs))
    ensures m.ignoring[m.depth] == (m.ignoring[m.depth - 1] || Holds(Shown(Front(gs)), Last(gs)))
  {
    hide StateOf, Shown, Holds;
    assert LevelIs(m, gs, m.depth);
  }

  lemma TopIs(n: Machine, gs: seq<Group>)
    requires Valid(n) && 0 < n.depth == |gs|
    ensures LevelIs(n, gs, n.depth) <==>
            && n.ifstate[n.depth] == StateOf(Shown(Front(gs)), Last(gs))
            && n.ignoring[n.depth] == (n.ignoring[n.depth - 1] || Holds(Shown(Front(gs)), Last(gs)))
  {
    hide StateOf, Shown, Holds;
  }

  lemma OtherLines(m: Machine, x: Input, iocccok: bool)
    requires Valid(m) && Classified(x) && (x.line.EndifLine? || x.line.TextLine?) && Step(m, x, iocccok).Running?
    ensures x.line.EndifLine? ==> m.depth > 0
    ensures var n := Step(m, x, iocccok).m;
            n.ifstate == m.ifstate && n.ignoring == m.ignoring && n.depth == if x.line.EndifLine? then m.depth - 1 else m.depth
  {
  }

  lemma ClosesGroup(m: Machine, x: Input, iocccok: bool, gs: seq<Group>)
    requires StacksAre(m, gs) && Classified(x) && (x.line.EndifLine? || x.line.TextLine?) && Step(m, x, iocccok).Running?
    ensures x.line.EndifLine? ==> gs != []
    ensures StacksAre(Step(m, x, iocccok).m, if x.line.EndifLine? then Front(gs) else gs)
  {
    OtherLines(m, x, iocccok);
    hide Step, Classified, LevelIs;
    var n, gs' := Step(m, x, iocccok).m, if x.line.EndifLine? then Front(gs) else gs;
    LevelsBelow(m, gs, n, gs', n.depth);
  }

  // ---------- whole runs

  ghost predicate AllClassified(xs: seq<Input>) {
    forall i | 0 <= i < |xs| :: Classified(xs[i])
  }

  /** In every state of every run, with -e or without, both stacks are what the directives of the open groups
      make them, and nothing else about the file matters. */
  lemma {:induction false} StacksFromGroups(xs: seq<Input>, iocccok: bool)
    requires AllClassified(xs) && Consume(xs, iocccok).Running?
    ensures StacksAre(Consume(xs, iocccok).m, Groups(xs))
    decreases |xs|
  {
    if xs != [] {
      var before, x := Front(xs), Last(xs);
      StacksFromGroups(before, iocccok);
      ConsumeSnoc(xs, iocccok);
      hide Step, StacksAre, Classified, NextGroup;
      var m, gs := Consume(before, iocccok).m, Groups(before);
      assert Classified(x);
      match x.line
      case IfLine(_) => OpensGroup(m, x, iocccok, gs);
      case ElifLine(_) => BranchesGroup(m, x, iocccok, gs); NextElif(gs, x);
      case ElseLine => BranchesGroup(m, x, iocccok, gs); NextElse(gs, x);
      case _ => ClosesGroup(m, x, iocccok, gs);
    }
  }

  lemma NextElif(gs: seq<Group>, x: Input)
    requires gs != [] && x.line.ElifLine?
    ensures NextGroup(Last(gs), x) == Last(gs).(elifs := Last(gs).elifs + [x.lt])
  {
  }

  lemma NextElse(gs: seq<Group>, x: Input)
    requires gs != [] && x.line.ElseLine?
    ensures NextGroup(Last(gs), x) == Last(gs).(inElse := true)
  {
  }

  predicate ExactAt(m: Machine, gs: seq<Group>, d: nat)
    requires Valid(m) && d < |gs| == m.depth
  {
    m.ignoring[d + 1] == (m.ignoring[d] || Promised(gs[d]))
  }

  /** Comments are left alone in a group exactly while it, or a group around it, was opened by an ignored symbol
      and has not reached an #elif. */
  ghost predicate IgnoreExact(m: Machine, gs: seq<Group>) {
    && Valid(m) && |gs| == m.depth && !m.ignoring[0]
    && forall d: nat | d < |gs| :: ExactAt(m, gs, d)
  }

  /** A group lingers, and no group around it has comments left alone anyway. */
  ghost predicate LingersAlone(gs: seq<Group>, d: nat)
    requires d < |gs|
  {
    Lingers(Shown(gs[..d]), gs[d]) && forall i | 0 <= i < d :: !Holds(Shown(gs[..i]), gs[i])
  }

  lemma {:induction false} IgnoringAt(m: Machine, gs: seq<Group>, d: nat)
    requires StacksAre(m, gs) && d <= m.depth
    ensures m.ignoring[d] <==> exists i | 0 <= i < d :: Holds(Shown(gs[..i]), gs[i])
  {
    hide StateOf, Shown, Holds;
    if d > 0 {
      IgnoringAt(m, gs, d - 1);
      assert LevelIs(m, gs, d);
    }
  }

  /** That is so if and only if no open group lingers by itself. Without -e none does. */
  lemma {:induction false} IgnoringIsExact(xs: seq<Input>, iocccok: bool)
    requires AllClassified(xs) && Consume(xs, iocccok).Running?
    ensures IgnoreExact(Consume(xs, iocccok).m, Groups(xs)) <==> forall d: nat | d < |Groups(xs)| :: !LingersAlone(Groups(xs), d)
    ensures !iocccok ==> IgnoreExact(Consume(xs, iocccok).m, Groups(xs))
  {
    StacksFromGroups(xs, iocccok);
    var m, gs := Consume(xs, iocccok).m, Groups(xs);
    StacksLinger(m, gs);
    if !iocccok { NothingLoose(xs); }
  }

  ghost predicate NoneLoose(gs: seq<Group>) {
    forall d | 0 <= d < |gs| :: !Loose(Shown(gs[..d]), gs[d])
  }

  lemma LooseStops(m: Machine, x: Input)
    requires Valid(m) && Classified(x) && x.line.IfLine? && Step(m, x, false).Running?
    ensures !(Printing(m.ifstate[m.depth]) && Ignored(x.lt) && x.lt.dodgy)
  {
  }

  /** Without -e a run stops at such a directive. */
  lemma {:induction false} NothingLoose(xs: seq<Input>)
    requires AllClassified(xs) && Consume(xs, false).Running?
    ensures NoneLoose(Groups(xs))
    decreases |xs|
  {
    if xs != [] {
      var before, x := Front(xs), Last(xs);
      NothingLoose(before);
      StacksFromGroups(before, false);
      ConsumeSnoc(xs, false);
      hide Step, StacksAre, Classified;
      var m, gs := Consume(before, false).m, Groups(before);
      assert Classified(x);
      if x.line.IfLine? {
        TopState(m, gs);
        LooseStops(m, x);
      }
      LooseNext(gs, x);
    }
  }

  lemma LooseNext(gs: seq<Group>, x: Input)
    requires NoneLoose(gs) && (x.line.IfLine? ==> !Loose(Shown(gs), Group(x.lt, [], false)))
    ensures x.line.IfLine? ==> NoneLoose(gs + [Group(x.lt, [], false)])
    ensures gs != [] ==> NoneLoose(Front(gs)) && forall g: Group | g.first == Last(gs).first :: NoneLoose(Front(gs) + [g])
  {
    hide Shown;
    if x.line.IfLine? {
      var gs' := gs + [Group(x.lt, [], false)];
      assert gs'[..|gs|] == gs;
      forall d | 0 <= d < |gs'| ensures !Loose(Shown(gs'[..d]), gs'[d]) {
        if d < |gs| { assert gs'[..d] == gs[..d]; }
      }
    }
    if gs != [] {
      forall g: Group, d | g.first == Last(gs).first && 0 <= d < |gs|
        ensures !Loose(Shown((Front(gs) + [g])[..d]), (Front(gs) + [g])[d])
      {
        assert (Front(gs) + [g])[..d] == gs[..d];
      }
      forall d | 0 <= d < |gs| - 1 ensures !Loose(Shown(Front(gs)[..d]), Front(gs)[d]) {
        assert Front(gs)[..d] == gs[..d];
      }
    }
  }

  lemma StacksLinger(m: Machine, gs: seq<Group>)
    requires StacksAre(m, gs)
    ensures IgnoreExact(m, gs) <==> forall d: nat | d < |gs| :: !LingersAlone(gs, d)
  {
    hide StateOf, Shown, Promised, Lingers;
    forall d: nat | d < |gs| ensures ExactAt(m, gs, d) <==> !LingersAlone(gs, d) {
      IgnoringAt(m, gs, d);
      assert LevelIs(m, gs, d + 1);
      PromisedOnce(Shown(gs[..d]), gs[d]);
    }
  }

  lemma PromisedOnce(shown: bool, g: Group)
    ensures !(Promised(g) && Lingers(shown, g))
  {
  }

  const SplitIf := Input(IfLine(0), Directive(TrueI, true))
  const TrueElif := Input(ElifLine(1), Directive(ElTrue, false))

  /** With -e one does: an ignored #if that is not on one line, then a true #elif. */
  lemma {:induction false} LingeringHappens()
    ensures var xs := [SplitIf, TrueElif];
            && AllClassified(xs) && Consume(xs, true).Running? && Groups(xs) == [Group(SplitIf.lt, [TrueElif.lt], false)]
            && LingersAlone(Groups(xs), 0) && !IgnoreExact(Consume(xs, true).m, Groups(xs))
  {
    var xs, one := [SplitIf, TrueElif], [SplitIf];
    assert Front(xs) == one && Last(xs) == TrueElif && Front(one) == [] && Last(one) == SplitIf;
    LingeringSteps();
    LingeringGroups();
    hide Step, Consume, Start, Groups, LingersAlone, IgnoreExact;
    NothingRead(true);
    ConsumeSnoc(one, true);
    ConsumeSnoc(xs, true);
    IgnoringIsExact(xs, true);
  }

  lemma {:induction false} LingeringGroups()
    ensures var xs := [SplitIf, TrueElif];
            AllClassified(xs) && Groups(xs) == [Group(SplitIf.lt, [TrueElif.lt], false)] && LingersAlone(Groups(xs), 0)
  {
    var g := Group(SplitIf.lt, [], false);
    assert Lingers(true, Group(SplitIf.lt, [TrueElif.lt], false));
    hide Groups, LingersAlone, Lingers;
    TwoClassified();
    GroupsNext([], SplitIf);
    GroupsNext([SplitIf], TrueElif);
    assert [] + [SplitIf] == [SplitIf] && [SplitIf] + [TrueElif] == [SplitIf, TrueElif];
    assert Groups([SplitIf]) == [g] && Front([g]) == [] && Last([g]) == g && g.elifs + [TrueElif.lt] == [TrueElif.lt];
    FirstAlone(Group(SplitIf.lt, [TrueElif.lt], false));
  }

  lemma TwoClassified()
    ensures AllClassified([SplitIf, TrueElif])
  {
  }

  lemma FirstAlone(g: Group)
    requires Lingers(true, g)
    ensures LingersAlone([g], 0)
  {
    hide Lingers;
    assert Shown([g][..0]);
  }

  lemma {:induction false} GroupsNext(xs: seq<Input>, x: Input)
    requires x.line.IfLine? || x.line.ElifLine?
    ensures Groups([]) == []
    ensures x.line.IfLine? ==> Groups(xs + [x]) == Groups(xs) + [Group(x.lt, [], false)]
    ensures x.line.ElifLine? && Groups(xs) != [] ==>
              var gs := Groups(xs); Groups(xs + [x]) == Front(gs) + [Last(gs).(elifs := Last(gs).elifs + [x.lt])]
  {
    assert Front(xs + [x]) == xs && Last(xs + [x]) == x;
  }

  lemma LingeringSteps()
    ensures Step(Start(), SplitIf, true).Running? && Step(Step(Start(), SplitIf, true).m, TrueElif, true).Running?
  {
    assert Transition(Outside, SplitIf.lt) == Oiffy && Transition(PassMiddle, TrueElif.lt) == Mtrue;
    hide Transition, Fill;
  }
}
