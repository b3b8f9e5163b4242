/** The mutable half of redis_bot/commander.py: the module-level lists
    `conditions_functions` and `public_functions`, the `register` decorator
    that appends to them, and `dispatch` as the step-by-step computation the
    source performs, proved to agree with the specification in Dispatcher. */
module Commander {
  import opened Wrappers
  import opened Messages
  import opened Commands
  import Dispatcher
  import PyText

  /** The wrapped functions of the entries not registered hidden, in
      registration order. */
  function Publics(entries: seq<Entry>, hidden: seq<bool>): seq<Wrapped>
    requires |entries| == |hidden|
    decreases |entries|
  {
    if entries == [] then []
    else
      var n := |entries| - 1;
      Publics(entries[..n], hidden[..n]) + (if hidden[n] then [] else [entries[n].fn])
  }

  /** Registration positions are the identities of the wrapped functions. */
  predicate Numbered(entries: seq<Entry>) {
    forall i :: 0 <= i < |entries| ==> entries[i].fn.id == i
  }

  /** `w` is the function of a registration that was not hidden. */
  ghost predicate Shown(entries: seq<Entry>, hidden: seq<bool>, w: Wrapped) {
    exists i :: 0 <= i < |entries| && i < |hidden| && !hidden[i] && w == entries[i].fn
  }

  /** Every public function is a registered function that was not hidden,
      and every registered function not hidden is public. */
  lemma {:induction false} PublicsMembers(entries: seq<Entry>, hidden: seq<bool>)
    requires |entries| == |hidden|
    ensures forall k :: 0 <= k < |Publics(entries, hidden)| ==> Shown(entries, hidden, Publics(entries, hidden)[k])
    ensures forall i :: 0 <= i < |entries| && !hidden[i] ==> entries[i].fn in Publics(entries, hidden)
    decreases |entries|
  {
    if entries != [] {
      var n := |entries| - 1;
      PublicsMembers(entries[..n], hidden[..n]);
      var pre := Publics(entries[..n], hidden[..n]);
      var ps := Publics(entries, hidden);
      assert ps == pre + (if hidden[n] then [] else [entries[n].fn]);
      forall k | 0 <= k < |ps| ensures Shown(entries, hidden, ps[k]) {
        if k < |pre| {
          assert Shown(entries[..n], hidden[..n], pre[k]);
          var i :| 0 <= i < n && !hidden[..n][i] && pre[k] == entries[..n][i].fn;
          assert !hidden[i] && ps[k] == entries[i].fn;
        } else {
          assert !hidden[n] && ps[k] == entries[n].fn;
        }
      }
      forall i | 0 <= i < |entries| && !hidden[i] ensures entries[i].fn in ps {
        if i < n {
          assert entries[i] == entries[..n][i] && hidden[i] == hidden[..n][i];
        }
      }
    } else {
      assert Publics(entries, hidden) == [];
    }
  }

  /** The public functions keep registration order: those of a registry
      followed by more registrations are the old ones followed by those of
      the new registrations. */
  lemma {:induction false} PublicsAppend(a: seq<Entry>, ha: seq<bool>, b: seq<Entry>, hb: seq<bool>)
    requires |a| == |ha| && |b| == |hb|
    ensures Publics(a + b, ha + hb) == Publics(a, ha) + Publics(b, hb)
    decreases |b|
  {
    if b == [] {
      assert a + b == a && ha + hb == ha;
    } else {
      var n := |b| - 1;
      PublicsAppend(a, ha, b[..n], hb[..n]);
      BackSplit(a, b);
      BackSplit(ha, hb);
      PublicsSnoc(a + b[..n], ha + hb[..n], b[n], hb[n]);
      PublicsSnoc(b[..n], hb[..n], b[n], hb[n]);
    }
  }

  lemma BackSplit<T>(a: seq<T>, b: seq<T>)
    requires b != []
    ensures a + b == (a + b[..|b| - 1]) + [b[|b| - 1]] && b == b[..|b| - 1] + [b[|b| - 1]]
  {
  }

  /** The public functions after one more registration. */
  lemma PublicsSnoc(entries: seq<Entry>, hidden: seq<bool>, e: Entry, h: bool)
    requires |entries| == |hidden|
    ensures Publics(entries + [e], hidden + [h]) == Publics(entries, hidden) + (if h then [] else [e.fn])
  {
    assert (entries + [e])[..|entries|] == entries && (hidden + [h])[..|hidden|] == hidden;
  }

  /** In a registry, `function in public_functions` holds exactly for the
      functions not registered hidden. */
  lemma PublicIffNotHidden(entries: seq<Entry>, hidden: seq<bool>, i: nat)
    requires |entries| == |hidden| && Numbered(entries) && i < |entries|
    ensures Dispatcher.IsPublic(Publics(entries, hidden), entries[i].fn) <==> !hidden[i]
  {
    PublicsMembers(entries, hidden);
    var ps := Publics(entries, hidden);
    if Dispatcher.IsPublic(ps, entries[i].fn) {
      var j :| 0 <= j < |ps| && ps[j].id == entries[i].fn.id;
      assert Shown(entries, hidden, ps[j]);
      var i' :| 0 <= i' < |entries| && !hidden[i'] && ps[j] == entries[i'].fn;
      assert i' == i;
    }
    if !hidden[i] {
      var j :| 0 <= j < |ps| && ps[j] == entries[i].fn;
      assert ps[j].id == entries[i].fn.id;
    }
  }

  /** The re-ranking score of each close candidate: its bare name against
      the command. */
  method ScoreAll(close: seq<Wrapped>, command: string, ratio: Dispatcher.Ratio) returns (scores: seq<int>)
    ensures scores == Dispatcher.Scores(close, command, ratio)
  {
    scores := [];
    var k := 0;
    while k < |close|
      invariant 0 <= k <= |close|
      invariant |scores| == k
      invariant forall j :: 0 <= j < k ==> scores[j] == ratio(close[j].handler.name, command)
    {
      scores := scores + [ratio(close[k].handler.name, command)];
      k := k + 1;
    }
  }

  /** The best score. */
  method BestScore(scores: seq<int>) returns (best: int)
    requires scores != []
    ensures best == Dispatcher.MaxOf(scores)
  {
    best := scores[0];
    var k := 1;
    while k < |scores|
      invariant 1 <= k <= |scores|
      invariant exists j :: 0 <= j < k && scores[j] == best
      invariant forall j :: 0 <= j < k ==> scores[j] <= best
    {
      if scores[k] > best {
        best := scores[k];
      }
      k := k + 1;
    }
    var top := Dispatcher.MaxOf(scores);
    var j :| 0 <= j < |scores| && scores[j] == top;
    assert top <= best;
  }

  /** The close candidates whose score is the best one, in pool order. */
  method KeepBest(close: seq<Wrapped>, scores: seq<int>, best: int, ghost command: string, ghost ratio: Dispatcher.Ratio)
    returns (winners: seq<Wrapped>)
    requires scores == Dispatcher.Scores(close, command, ratio)
    ensures winners == Dispatcher.Best(close, command, ratio, best)
  {
    winners := [];
    var k := 0;
    while k < |close|
      invariant 0 <= k <= |close|
      invariant Dispatcher.Best(close, command, ratio, best) == winners + Dispatcher.Best(close[k..], command, ratio, best)
    {
      assert close[k..][1..] == close[k + 1..];
      if scores[k] == best {
        winners := winners + [close[k]];
      }
      k := k + 1;
    }
    assert close[k..] == [];
    assert winners + [] == winners;
  }

  /** `rerank`: score each close candidate by its bare name against the
      command, keep those with the best score. */
  method Rerank(close: seq<Wrapped>, command: string, ratio: Dispatcher.Ratio) returns (winners: seq<Wrapped>)
    requires close != []
    ensures winners == Dispatcher.Best(close, command, ratio, Dispatcher.MaxOf(Dispatcher.Scores(close, command, ratio)))
  {
    var scores := ScoreAll(close, command, ratio);
    var best := BestScore(scores);
    winners := KeepBest(close, scores, best, command, ratio);
  }

  /** The "Did you mean" question, built name by name. */
  method AskWhich(winners: seq<Wrapped>) returns (question: string)
    ensures question == Dispatcher.DidYouMean(winners)
  {
    var names: seq<string> := [];
    var k := 0;
    while k < |winners|
      invariant 0 <= k <= |winners|
      invariant |names| == k
      invariant forall j :: 0 <= j < k ==> names[j] == "bot" + winners[j].handler.name
    {
      names := names + ["bot" + winners[k].handler.name];
      k := k + 1;
    }
    assert names == Dispatcher.BotNames(winners);
    question := "Did you mean any of " + PyText.Join(", ", names) + "?";
  }

  /** The registry: every registered (condition, function) pair in
      registration order, and the functions `help` lists. */
  class Registry {
    var conditionsFunctions: seq<Entry>
    var publicFunctions: seq<Wrapped>
    /** The `hide` flag of each registration. */
    ghost var hiddenFlags: seq<bool>

    ghost predicate Valid()
      reads this
    {
      |hiddenFlags| == |conditionsFunctions|
      && Numbered(conditionsFunctions)
      && publicFunctions == Publics(conditionsFunctions, hiddenFlags)
    }

    /** Both lists start empty. */
    constructor Empty()
      ensures Valid()
      ensures conditionsFunctions == [] && publicFunctions == [] && hiddenFlags == []
    {
      conditionsFunctions := [];
      publicFunctions := [];
      hiddenFlags := [];
    }

    /** The registry as the module leaves it once imported: `help` is
        registered with `register()`, so it is public and listed first. */
    constructor Loaded()
      ensures Valid()
      ensures conditionsFunctions == [Entry(Wrapped(0, HelpHandler, None), None)]
      ensures publicFunctions == [Wrapped(0, HelpHandler, None)]
      ensures hiddenFlags == [false]
    {
      var help := Wrapped(0, HelpHandler, None);
      conditionsFunctions := [Entry(help, None)];
      publicFunctions := [help];
      hiddenFlags := [false];
      assert [Entry(help, None)][..0] == [];
    }

    /** `register(rooms, condition, hide)(function)`: wraps the function,
        appends one entry at the end of `conditions_functions`, appends the
        wrapped function to `public_functions` unless hidden, and returns it. */
    method Register(reg: Registration, h: Handler) returns (w: Wrapped)
      requires Valid()
      modifies this
      ensures Valid()
      ensures w == Wrapped(|old(conditionsFunctions)|, h, reg.condition)
      ensures conditionsFunctions == old(conditionsFunctions) + [Entry(w, reg.rooms)]
      ensures publicFunctions == old(publicFunctions) + (if reg.hidden then [] else [w])
      ensures hiddenFlags == old(hiddenFlags) + [reg.hidden]
    {
      w := Wrapped(|conditionsFunctions|, h, reg.condition);
      var entries := conditionsFunctions + [Entry(w, reg.rooms)];
      var flags := hiddenFlags + [reg.hidden];
      assert entries[..|conditionsFunctions|] == conditionsFunctions;
      assert flags[..|hiddenFlags|] == hiddenFlags;
      conditionsFunctions := entries;
      hiddenFlags := flags;
      if !reg.hidden {
        publicFunctions := publicFunctions + [w];
      }
    }

    /** The exact phase: every condition is evaluated in registration order;
        the first that raises aborts it. */
    method ExactCandidates(mess: Message) returns (r: Result<seq<Wrapped>, DispatchError>)
      ensures r == Dispatcher.Exact(conditionsFunctions, mess)
    {
      var candidates: seq<Wrapped> := [];
      var i := 0;
      assert conditionsFunctions[0..] == conditionsFunctions;
      Dispatcher.PrefixOkNone(Dispatcher.Exact(conditionsFunctions, mess));
      while i < |conditionsFunctions|
        invariant 0 <= i <= |conditionsFunctions|
        invariant Dispatcher.Exact(conditionsFunctions, mess)
          == Dispatcher.PrefixOk(candidates, Dispatcher.Exact(conditionsFunctions[i..], mess))
      {
        var entries := conditionsFunctions[i..];
        assert entries[1..] == conditionsFunctions[i + 1..];
        var holds := Holds(conditionsFunctions[i], mess);
        if holds.Err? {
          return Err(holds.error);
        }
        var head := if holds.value then [conditionsFunctions[i].fn] else [];
        Dispatcher.PrefixOkThen(candidates, head, Dispatcher.Exact(entries[1..], mess));
        candidates := candidates + head;
        i := i + 1;
      }
      assert conditionsFunctions[i..] == [];
      assert candidates + [] == candidates;
      r := Ok(candidates);
    }

    /** The close candidates: public functions without a custom condition
        whose "bot" name is not similar enough to the command. */
    method CloseCandidates(mess: Message, ratio: Dispatcher.Ratio) returns (close: seq<Wrapped>)
      ensures close == Dispatcher.Pool(conditionsFunctions, publicFunctions, mess, ratio)
    {
      close := [];
      var i := 0;
      assert conditionsFunctions[0..] == conditionsFunctions;
      while i < |conditionsFunctions|
        invariant 0 <= i <= |conditionsFunctions|
        invariant Dispatcher.Pool(conditionsFunctions, publicFunctions, mess, ratio)
          == close + Dispatcher.Pool(conditionsFunctions[i..], publicFunctions, mess, ratio)
      {
        Dispatcher.PoolStep(conditionsFunctions, publicFunctions, mess, ratio, i);
        var f := conditionsFunctions[i].fn;
        var head := if Dispatcher.InPool(publicFunctions, f, mess, ratio) then [f] else [];
        assert close + (head + Dispatcher.Pool(conditionsFunctions[i + 1..], publicFunctions, mess, ratio))
          == (close + head) + Dispatcher.Pool(conditionsFunctions[i + 1..], publicFunctions, mess, ratio);
        close := close + head;
        i := i + 1;
      }
      assert conditionsFunctions[i..] == [];
      assert close + [] == close;
    }

    /** `dispatch(mess)`, with `fuzz.ratio` given as `ratio`. */
    method Dispatch(mess: Message, ratio: Dispatcher.Ratio) returns (r: Dispatcher.Reply)
      ensures r == Dispatcher.Dispatch(conditionsFunctions, publicFunctions, mess, ratio)
    {
      var body := Get(mess, BodyKey, "");
      var line := SplitCommand(body);
      var exact := ExactCandidates(mess);
      if exact.Err? {
        return Err(exact.error);
      }
      var candidates := exact.value;
      if |candidates| > 0 {
        return Ok(Dispatcher.Invoke(candidates[0], mess, line.args, publicFunctions));
      }
      var close := CloseCandidates(mess, ratio);
      if |close| == 0 {
        return Ok(None);
      }
      if FromBotKey !in mess {
        return Err(KeyError(FromBotKey));
      }
      if Truthy(mess[FromBotKey]) {
        return Ok(None);
      }
      if |close| == 1 {
        var res := Dispatcher.Invoke(close[0], mess, line.args, publicFunctions);
        return Dispatcher.Noob(res, mess, close[0].handler.name);
      }
      var winners := Rerank(close, line.command, ratio);
      if |winners| == 1 {
        var res := Dispatcher.Invoke(winners[0], mess, line.args, publicFunctions);
        return Dispatcher.Noob(res, mess, winners[0].handler.name);
      }
      var question := AskWhich(winners);
      r := Ok(Some(question));
    }
  }
}
