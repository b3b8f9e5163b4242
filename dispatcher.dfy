/** `dispatch` of redis_bot/commander.py as a function of the registry
    (`conditions_functions`, `public_functions`), the message and the
    similarity score `fuzz.ratio`: the exact phase, the pool of close
    candidates, and the reply it builds from them. */
module Dispatcher {
  import opened Wrappers
  import opened Messages
  import opened Commands
  import PyText

  /** The similarity score of two strings (`fuzz.ratio`). */
  type Ratio = (string, string) -> int

  /** What `dispatch` returns, or the exception it raises. */
  type Reply = Result<Option<string>, DispatchError>

  function PrefixOk(acc: seq<Wrapped>, r: Result<seq<Wrapped>, DispatchError>): Result<seq<Wrapped>, DispatchError> {
    match r
    case Ok(rest) => Ok(acc + rest)
    case Err(e) => Err(e)
  }

  lemma PrefixOkThen(a: seq<Wrapped>, b: seq<Wrapped>, r: Result<seq<Wrapped>, DispatchError>)
    ensures PrefixOk(a, PrefixOk(b, r)) == PrefixOk(a + b, r)
  {
    if r.Ok? {
      assert a + (b + r.value) == (a + b) + r.value;
    }
  }

  lemma PrefixOkNone(r: Result<seq<Wrapped>, DispatchError>)
    ensures PrefixOk([], r) == r
  {
    if r.Ok? {
      assert [] + r.value == r.value;
    }
  }

  /** The exact candidates: the functions whose condition holds, in
      registration order. Every condition is evaluated, so the first one
      that raises aborts the whole phase. */
  function Exact(entries: seq<Entry>, m: Message): (r: Result<seq<Wrapped>, DispatchError>)
    ensures r.Ok? ==> |r.value| <= |entries|
    ensures r.Err? ==> r.error == KeyError(RoomKey)
    decreases |entries|
  {
    if entries == [] then Ok([])
    else match Holds(entries[0], m)
      case Err(e) => Err(e)
      case Ok(b) => PrefixOk(if b then [entries[0].fn] else [], Exact(entries[1..], m))
  }

  /** `function in public_functions`: wrapped functions are compared by
      identity, which is their registration position. */
  predicate IsPublic(publics: seq<Wrapped>, w: Wrapped) {
    exists j :: 0 <= j < |publics| && publics[j].id == w.id
  }

  function StartsWithBot(command: string): (b: bool)
    ensures b <==> |command| >= 3 && command[..3] == "bot"
  {
    |command| >= 3 && command[..3] == "bot"
  }

  /** Membership of the pool of close candidates, with both branches on the
      "bot" prefix as they are written. */
  predicate InPool(publics: seq<Wrapped>, w: Wrapped, m: Message, ratio: Ratio): (b: bool)
    ensures b <==> Eligible(publics, w, m, ratio)
  {
    var command := CommandOf(m);
    IsPublic(publics, w) && w.botCondition.None? &&
    ((StartsWithBot(command) && CloseCondition(ratio, w.handler.name, m))
     || (!StartsWithBot(command) && CloseCondition(ratio, w.handler.name, m)))
  }

  /** The close candidates, in registration order. */
  function Pool(entries: seq<Entry>, publics: seq<Wrapped>, m: Message, ratio: Ratio): (r: seq<Wrapped>)
    ensures |r| <= |entries|
    decreases |entries|
  {
    if entries == [] then []
    else
      var head := if InPool(publics, entries[0].fn, m, ratio) then [entries[0].fn] else [];
      head + Pool(entries[1..], publics, m, ratio)
  }

  /** One step of building the pool, from position `i` of the registry. */
  lemma PoolStep(entries: seq<Entry>, publics: seq<Wrapped>, m: Message, ratio: Ratio, i: nat)
    requires i < |entries|
    ensures Pool(entries[i..], publics, m, ratio)
      == (if InPool(publics, entries[i].fn, m, ratio) then [entries[i].fn] else []) + Pool(entries[i + 1..], publics, m, ratio)
  {
    assert entries[i..][1..] == entries[i + 1..];
  }

  /** The re-ranking scores: the bare name against the command. */
  function Scores(pool: seq<Wrapped>, command: string, ratio: Ratio): (r: seq<int>)
    ensures |r| == |pool|
    ensures forall k :: 0 <= k < |pool| ==> r[k] == ratio(pool[k].handler.name, command)
    decreases |pool|
  {
    if pool == [] then [] else [ratio(pool[0].handler.name, command)] + Scores(pool[1..], command, ratio)
  }

  /** `max` of a non-empty list of scores. */
  function MaxOf(xs: seq<int>): (r: int)
    requires xs != []
    ensures r in xs
    ensures forall k :: 0 <= k < |xs| ==> xs[k] <= r
    decreases |xs|
  {
    if |xs| == 1 then xs[0]
    else
      var rest := MaxOf(xs[1..]);
      assert xs == [xs[0]] + xs[1..];
      if xs[0] >= rest then xs[0] else rest
  }

  /** The candidates whose re-ranking score is `best`, in pool order. */
  function Best(pool: seq<Wrapped>, command: string, ratio: Ratio, best: int): (r: seq<Wrapped>)
    ensures |r| <= |pool|
    ensures forall k :: 0 <= k < |r| ==> ratio(r[k].handler.name, command) == best
    decreases |pool|
  {
    if pool == [] then []
    else
      var head := if ratio(pool[0].handler.name, command) == best then [pool[0]] else [];
      head + Best(pool[1..], command, ratio, best)
  }

  /** Calling a wrapped function with the message and the arguments. */
  function Invoke(w: Wrapped, m: Message, args: seq<string>, publics: seq<Wrapped>): (r: Option<string>)
    ensures w.handler.action.HelpAction? ==> r.Some?
    ensures w.handler.action.Reply? ==> r == w.handler.action.run(m, args)
  {
    match w.handler.action
    case HelpAction => Some(HelpText(publics))
    case Reply(run) => run(m, args)
  }

  /** The reply of a fuzzily chosen handler with the reminder of its real
      name appended. The nick is looked up before the addition is made, so a
      missing nick raises KeyError even when the handler returned None, and
      adding to None raises TypeError. */
  function Noob(res: Option<string>, m: Message, name: string): (r: Reply)
    ensures NickKey !in m ==> r == Err(KeyError(NickKey))
    ensures NickKey in m && res.None? ==> r == Err(TypeError)
    ensures NickKey in m && res.Some? ==>
      r == Ok(Some(res.value + "\n" + m[NickKey] + ": It was bot" + name + ", NOOOOB!"))
  {
    if NickKey !in m then Err(KeyError(NickKey))
    else if res.None? then Err(TypeError)
    else Ok(Some(res.value + "\n" + m[NickKey] + ": It was bot" + name + ", NOOOOB!"))
  }

  function BotNames(ws: seq<Wrapped>): (r: seq<string>)
    ensures |r| == |ws|
    ensures forall k :: 0 <= k < |ws| ==> r[k] == "bot" + ws[k].handler.name
    decreases |ws|
  {
    if ws == [] then [] else ["bot" + ws[0].handler.name] + BotNames(ws[1..])
  }

  /** The question asked when several candidates tie. */
  function DidYouMean(ws: seq<Wrapped>): string {
    "Did you mean any of " + PyText.Join(", ", BotNames(ws)) + "?"
  }

  /** The reply drawn from a non-empty pool of close candidates. */
  function Fuzzy(pool: seq<Wrapped>, m: Message, args: seq<string>, publics: seq<Wrapped>, ratio: Ratio): (r: Reply)
    requires pool != []
    ensures r.Err? ==> r.error == KeyError(NickKey) || r.error == TypeError
    ensures NickKey !in m && |pool| == 1 ==> r == Err(KeyError(NickKey))
  {
    if |pool| == 1 then Noob(Invoke(pool[0], m, args, publics), m, pool[0].handler.name)
    else
      var command := CommandOf(m);
      var winners := Best(pool, command, ratio, MaxOf(Scores(pool, command, ratio)));
      if |winners| == 1 then Noob(Invoke(winners[0], m, args, publics), m, winners[0].handler.name)
      else Ok(Some(DidYouMean(winners)))
  }

  /** `dispatch(mess)`. */
  function Dispatch(entries: seq<Entry>, publics: seq<Wrapped>, m: Message, ratio: Ratio): (r: Reply)
    ensures r.Err? ==> r.error in {KeyError(RoomKey), KeyError(FromBotKey), KeyError(NickKey), TypeError}
    ensures entries == [] ==> r == Ok(None)
  {
    var line := SplitCommand(Get(m, BodyKey, ""));
    match Exact(entries, m)
    case Err(e) => Err(e)
    case Ok(candidates) =>
      if candidates != [] then Ok(Invoke(candidates[0], m, line.args, publics))
      else
        var pool := Pool(entries, publics, m, ratio);
        if pool == [] then Ok(None)
        else if FromBotKey !in m then Err(KeyError(FromBotKey))
        else if Truthy(m[FromBotKey]) then Ok(None)
        else Fuzzy(pool, m, line.args, publics, ratio)
  }

  // ---------------------------------------------------------------------
  // The exact phase

  /** The exact phase fails exactly when some condition raises, and then
      with the KeyError of a missing room. */
  lemma {:induction false} ExactSucceeds(entries: seq<Entry>, m: Message)
    ensures Exact(entries, m).Ok? <==> forall j :: 0 <= j < |entries| ==> Holds(entries[j], m).Ok?
    ensures Exact(entries, m).Err? ==> Exact(entries, m).error == KeyError(RoomKey)
    decreases |entries|
  {
    if entries != [] {
      ExactSucceeds(entries[1..], m);
      assert forall j :: 1 <= j < |entries| ==> entries[j] == entries[1..][j - 1];
    }
  }

  /** When every condition is false there are no exact candidates. */
  lemma {:induction false} ExactNone(entries: seq<Entry>, m: Message)
    requires forall j :: 0 <= j < |entries| ==> Holds(entries[j], m) == Ok(false)
    ensures Exact(entries, m) == Ok([])
    decreases |entries|
  {
    if entries != [] {
      ExactNone(entries[1..], m);
      var none: seq<Wrapped> := [];
      assert none + none == none;
    }
  }

  /** When entry `i` is the first whose condition holds (and none raises),
      it heads the exact candidates. */
  lemma {:induction false} ExactFirst(entries: seq<Entry>, m: Message, i: nat)
    requires i < |entries|
    requires forall j :: 0 <= j < |entries| ==> Holds(entries[j], m).Ok?
    requires forall j :: 0 <= j < i ==> Holds(entries[j], m) == Ok(false)
    requires Holds(entries[i], m) == Ok(true)
    ensures Exact(entries, m).Ok? && Exact(entries, m).value != []
    ensures Exact(entries, m).value[0] == entries[i].fn
    decreases i
  {
    ExactSucceeds(entries, m);
    if i > 0 {
      ExactFirst(entries[1..], m, i - 1);
    }
  }

  /** One step of a successful exact phase. */
  lemma ExactStep(entries: seq<Entry>, m: Message)
    requires entries != [] && Exact(entries, m).Ok?
    ensures Holds(entries[0], m).Ok? && Exact(entries[1..], m).Ok?
    ensures Exact(entries, m).value
      == (if Holds(entries[0], m) == Ok(true) then [entries[0].fn] else []) + Exact(entries[1..], m).value
  {
  }

  /** `w` is the function of an entry whose condition holds. */
  ghost predicate Fires(entries: seq<Entry>, m: Message, w: Wrapped) {
    exists j :: 0 <= j < |entries| && w == entries[j].fn && Holds(entries[j], m) == Ok(true)
  }

  /** Every exact candidate is a registered function whose condition holds,
      and every function whose condition holds is a candidate. */
  lemma {:induction false} ExactMembers(entries: seq<Entry>, m: Message)
    requires Exact(entries, m).Ok?
    ensures forall k :: 0 <= k < |Exact(entries, m).value| ==> Fires(entries, m, Exact(entries, m).value[k])
    ensures forall j :: 0 <= j < |entries| && Holds(entries[j], m) == Ok(true) ==> entries[j].fn in Exact(entries, m).value
    decreases |entries|
  {
    if entries != [] {
      ExactStep(entries, m);
      ExactMembers(entries[1..], m);
      var c := Exact(entries, m).value;
      var rest := Exact(entries[1..], m).value;
      var head := if Holds(entries[0], m) == Ok(true) then [entries[0].fn] else [];
      forall k | 0 <= k < |c| ensures Fires(entries, m, c[k]) {
        if k >= |head| {
          assert Fires(entries[1..], m, rest[k - |head|]);
          var j :| 0 <= j < |entries[1..]| && rest[k - |head|] == entries[1..][j].fn && Holds(entries[1..][j], m) == Ok(true);
          assert c[k] == entries[j + 1].fn && Holds(entries[j + 1], m) == Ok(true);
        } else {
          assert c[k] == entries[0].fn && Holds(entries[0], m) == Ok(true);
        }
      }
      forall j | 0 <= j < |entries| && Holds(entries[j], m) == Ok(true) ensures entries[j].fn in c {
        if j > 0 {
          assert entries[j] == entries[1..][j - 1];
        }
      }
    }
  }

  /** If any condition holds, dispatch invokes the first such function in
      registration order, with the message and the arguments after the
      command, and returns its result as it is. */
  lemma DispatchFirstMatch(entries: seq<Entry>, publics: seq<Wrapped>, m: Message, ratio: Ratio, i: nat)
    requires i < |entries|
    requires forall j :: 0 <= j < |entries| ==> Holds(entries[j], m).Ok?
    requires forall j :: 0 <= j < i ==> Holds(entries[j], m) == Ok(false)
    requires Holds(entries[i], m) == Ok(true)
    ensures Dispatch(entries, publics, m, ratio)
      == Ok(Invoke(entries[i].fn, m, SplitCommand(Get(m, BodyKey, "")).args, publics))
  {
    ExactFirst(entries, m, i);
  }

  /** A condition that raises aborts dispatch with its KeyError, whatever
      the other conditions say. */
  lemma DispatchRoomError(entries: seq<Entry>, publics: seq<Wrapped>, m: Message, ratio: Ratio, i: nat)
    requires i < |entries| && Holds(entries[i], m).Err?
    ensures Dispatch(entries, publics, m, ratio) == Err(KeyError(RoomKey))
  {
    ExactSucceeds(entries, m);
  }

  // ---------------------------------------------------------------------
  // The pool of close candidates

  /** What membership of the pool comes down to: a public function without
      a custom condition whose "bot" name is not close enough to be an
      exact hit; the "bot" prefix test plays no part. */
  predicate Eligible(publics: seq<Wrapped>, w: Wrapped, m: Message, ratio: Ratio) {
    IsPublic(publics, w) && w.botCondition.None? && CloseCondition(ratio, w.handler.name, m)
  }

  /** `w` is the function of an eligible entry. */
  ghost predicate EligibleEntry(entries: seq<Entry>, publics: seq<Wrapped>, m: Message, ratio: Ratio, w: Wrapped) {
    exists j :: 0 <= j < |entries| && w == entries[j].fn && Eligible(publics, entries[j].fn, m, ratio)
  }

  /** The pool holds exactly the eligible registered functions. */
  lemma {:induction false} PoolMembers(entries: seq<Entry>, publics: seq<Wrapped>, m: Message, ratio: Ratio)
    ensures forall k :: 0 <= k < |Pool(entries, publics, m, ratio)| ==>
      EligibleEntry(entries, publics, m, ratio, Pool(entries, publics, m, ratio)[k])
    ensures forall j :: 0 <= j < |entries| && Eligible(publics, entries[j].fn, m, ratio) ==>
      entries[j].fn in Pool(entries, publics, m, ratio)
    decreases |entries|
  {
    if entries != [] {
      PoolMembers(entries[1..], publics, m, ratio);
      var pool := Pool(entries, publics, m, ratio);
      var rest := Pool(entries[1..], publics, m, ratio);
      var head := if InPool(publics, entries[0].fn, m, ratio) then [entries[0].fn] else [];
      assert pool == head + rest;
      forall k | 0 <= k < |pool| ensures EligibleEntry(entries, publics, m, ratio, pool[k]) {
        if k >= |head| {
          assert EligibleEntry(entries[1..], publics, m, ratio, rest[k - |head|]);
          var j :| 0 <= j < |entries[1..]| && rest[k - |head|] == entries[1..][j].fn
            && Eligible(publics, entries[1..][j].fn, m, ratio);
          assert pool[k] == entries[j + 1].fn && Eligible(publics, entries[j + 1].fn, m, ratio);
        } else {
          assert pool[k] == entries[0].fn && Eligible(publics, entries[0].fn, m, ratio);
        }
      }
      forall j | 0 <= j < |entries| && Eligible(publics, entries[j].fn, m, ratio) ensures entries[j].fn in pool {
        if j > 0 {
          assert entries[j] == entries[1..][j - 1];
        }
      }
    } else {
      assert Pool(entries, publics, m, ratio) == [];
    }
  }

  /** The pool is built in registration order: the pool of a registry
      extended by more entries is the old pool followed by the pool of the
      new entries. */
  lemma {:induction false} PoolAppend(a: seq<Entry>, b: seq<Entry>, publics: seq<Wrapped>, m: Message, ratio: Ratio)
    ensures Pool(a + b, publics, m, ratio) == Pool(a, publics, m, ratio) + Pool(b, publics, m, ratio)
    decreases |a|
  {
    if a == [] {
      assert a + b == b;
    } else {
      PoolAppend(a[1..], b, publics, m, ratio);
      FrontSplit(a, b);
      PoolCons(a[0], a[1..] + b, publics, m, ratio);
      PoolCons(a[0], a[1..], publics, m, ratio);
    }
  }

  lemma FrontSplit(a: seq<Entry>, b: seq<Entry>)
    requires a != []
    ensures a + b == [a[0]] + (a[1..] + b) && a == [a[0]] + a[1..]
  {
  }

  /** The pool of a registry with one more entry in front. */
  lemma PoolCons(e: Entry, rest: seq<Entry>, publics: seq<Wrapped>, m: Message, ratio: Ratio)
    ensures Pool([e] + rest, publics, m, ratio)
      == (if InPool(publics, e.fn, m, ratio) then [e.fn] else []) + Pool(rest, publics, m, ratio)
  {
    assert ([e] + rest)[1..] == rest;
  }

  /** Functions registered with a custom condition (`react`) never enter
      the pool, nor do hidden ones. */
  lemma NeverFuzzy(entries: seq<Entry>, publics: seq<Wrapped>, m: Message, ratio: Ratio, w: Wrapped)
    requires w.botCondition.Some? || !IsPublic(publics, w)
    ensures w !in Pool(entries, publics, m, ratio)
  {
    PoolMembers(entries, publics, m, ratio);
  }

  /** Without an exact match, a truthy `from_bot` makes dispatch return
      None whatever the registry holds. */
  lemma FromBotSuppresses(entries: seq<Entry>, publics: seq<Wrapped>, m: Message, ratio: Ratio)
    requires forall j :: 0 <= j < |entries| ==> Holds(entries[j], m) == Ok(false)
    requires FromBotKey in m && Truthy(m[FromBotKey])
    ensures Dispatch(entries, publics, m, ratio) == Ok(None)
  {
    ExactNone(entries, m);
  }

  /** No eligible entry, no pool. */
  lemma {:induction false} PoolEmpty(entries: seq<Entry>, publics: seq<Wrapped>, m: Message, ratio: Ratio)
    requires forall j :: 0 <= j < |entries| ==> !Eligible(publics, entries[j].fn, m, ratio)
    ensures Pool(entries, publics, m, ratio) == []
    decreases |entries|
  {
    if entries != [] {
      PoolEmpty(entries[1..], publics, m, ratio);
    }
  }

  /** Without an exact match, an empty pool makes dispatch return None, and
      `from_bot` is then never looked up. */
  lemma EmptyPoolSilent(entries: seq<Entry>, publics: seq<Wrapped>, m: Message, ratio: Ratio)
    requires forall j :: 0 <= j < |entries| ==> Holds(entries[j], m) == Ok(false)
    requires forall j :: 0 <= j < |entries| ==> !Eligible(publics, entries[j].fn, m, ratio)
    ensures Dispatch(entries, publics, m, ratio) == Ok(None)
  {
    ExactNone(entries, m);
    PoolEmpty(entries, publics, m, ratio);
  }

  /** A non-empty pool reached without `from_bot` raises KeyError. */
  lemma FromBotMissing(entries: seq<Entry>, publics: seq<Wrapped>, m: Message, ratio: Ratio, j: nat)
    requires forall j :: 0 <= j < |entries| ==> Holds(entries[j], m) == Ok(false)
    requires j < |entries| && Eligible(publics, entries[j].fn, m, ratio)
    requires FromBotKey !in m
    ensures Dispatch(entries, publics, m, ratio) == Err(KeyError(FromBotKey))
  {
    ExactNone(entries, m);
    PoolMembers(entries, publics, m, ratio);
  }

  // ---------------------------------------------------------------------
  // Re-ranking

  /** The candidates kept by the re-ranking are exactly the pool members
      scoring `best`; BestAppend gives their order. */
  lemma {:induction false} BestMembers(pool: seq<Wrapped>, command: string, ratio: Ratio, best: int)
    ensures forall k :: 0 <= k < |Best(pool, command, ratio, best)| ==>
      Best(pool, command, ratio, best)[k] in pool && ratio(Best(pool, command, ratio, best)[k].handler.name, command) == best
    ensures forall i :: 0 <= i < |pool| && ratio(pool[i].handler.name, command) == best ==>
      pool[i] in Best(pool, command, ratio, best)
    decreases |pool|
  {
    if pool != [] {
      BestMembers(pool[1..], command, ratio, best);
      var head := if ratio(pool[0].handler.name, command) == best then [pool[0]] else [];
      assert Best(pool, command, ratio, best) == head + Best(pool[1..], command, ratio, best);
      forall i | 0 <= i < |pool| && ratio(pool[i].handler.name, command) == best
        ensures pool[i] in Best(pool, command, ratio, best)
      {
        if i > 0 {
          assert pool[i] == pool[1..][i - 1];
        }
      }
    }
  }

  /** The re-ranking keeps pool order: filtering a pool made of two parts
      gives the kept candidates of the first part, then those of the second. */
  lemma {:induction false} BestAppend(a: seq<Wrapped>, b: seq<Wrapped>, command: string, ratio: Ratio, best: int)
    ensures Best(a + b, command, ratio, best) == Best(a, command, ratio, best) + Best(b, command, ratio, best)
    decreases |a|
  {
    if a == [] {
      assert a + b == b;
    } else {
      BestAppend(a[1..], b, command, ratio, best);
      assert (a + b)[1..] == a[1..] + b;
    }
  }

  /** The re-ranked list is never empty: some candidate has the maximum
      score. */
  lemma BestNonEmpty(pool: seq<Wrapped>, command: string, ratio: Ratio)
    requires pool != []
    ensures Best(pool, command, ratio, MaxOf(Scores(pool, command, ratio))) != []
    ensures forall i :: 0 <= i < |pool| ==> ratio(pool[i].handler.name, command) <= MaxOf(Scores(pool, command, ratio))
  {
    var scores := Scores(pool, command, ratio);
    var best := MaxOf(scores);
    var i :| 0 <= i < |scores| && scores[i] == best;
    BestMembers(pool, command, ratio, best);
    assert pool[i] in Best(pool, command, ratio, best);
  }

  /** With no score equal to `best`, nothing is kept. */
  lemma {:induction false} BestNone(pool: seq<Wrapped>, command: string, ratio: Ratio, best: int)
    requires forall k :: 0 <= k < |pool| ==> ratio(pool[k].handler.name, command) != best
    ensures Best(pool, command, ratio, best) == []
    decreases |pool|
  {
    if pool != [] {
      BestNone(pool[1..], command, ratio, best);
    }
  }

  /** With exactly one candidate scoring `best`, it alone is kept. */
  lemma {:induction false} BestSingle(pool: seq<Wrapped>, command: string, ratio: Ratio, best: int, i: nat)
    requires i < |pool| && ratio(pool[i].handler.name, command) == best
    requires forall k :: 0 <= k < |pool| && k != i ==> ratio(pool[k].handler.name, command) != best
    ensures Best(pool, command, ratio, best) == [pool[i]]
    decreases |pool|
  {
    if i == 0 {
      BestNone(pool[1..], command, ratio, best);
    } else {
      BestSingle(pool[1..], command, ratio, best, i - 1);
    }
  }

  /** A candidate that outscores every other one in the pool is invoked,
      and its reply gets the reminder of its real name, or dispatch raises
      on a missing nick or a None reply. */
  lemma DispatchUniqueWinner(entries: seq<Entry>, publics: seq<Wrapped>, m: Message, ratio: Ratio, i: nat)
    requires forall j :: 0 <= j < |entries| ==> Holds(entries[j], m) == Ok(false)
    requires FromBotKey in m && !Truthy(m[FromBotKey])
    requires i < |Pool(entries, publics, m, ratio)|
    requires forall k :: 0 <= k < |Pool(entries, publics, m, ratio)| && k != i ==>
      ratio(Pool(entries, publics, m, ratio)[k].handler.name, CommandOf(m))
        < ratio(Pool(entries, publics, m, ratio)[i].handler.name, CommandOf(m))
    ensures var w := Pool(entries, publics, m, ratio)[i];
      Dispatch(entries, publics, m, ratio)
        == Noob(Invoke(w, m, SplitCommand(Get(m, BodyKey, "")).args, publics), m, w.handler.name)
  {
    ExactNone(entries, m);
    var pool := Pool(entries, publics, m, ratio);
    var command := CommandOf(m);
    if |pool| > 1 {
      var scores := Scores(pool, command, ratio);
      var best := MaxOf(scores);
      assert best == scores[i];
      BestSingle(pool, command, ratio, best, i);
    }
  }

  /** When two candidates tie at the top score, dispatch asks which one was
      meant, listing the "bot" names of all top scorers in pool order. */
  lemma DispatchTie(entries: seq<Entry>, publics: seq<Wrapped>, m: Message, ratio: Ratio, i1: nat, i2: nat)
    requires forall j :: 0 <= j < |entries| ==> Holds(entries[j], m) == Ok(false)
    requires FromBotKey in m && !Truthy(m[FromBotKey])
    requires i1 < i2 < |Pool(entries, publics, m, ratio)|
    requires ratio(Pool(entries, publics, m, ratio)[i1].handler.name, CommandOf(m))
      == ratio(Pool(entries, publics, m, ratio)[i2].handler.name, CommandOf(m))
    requires forall k :: 0 <= k < |Pool(entries, publics, m, ratio)| ==>
      ratio(Pool(entries, publics, m, ratio)[k].handler.name, CommandOf(m))
        <= ratio(Pool(entries, publics, m, ratio)[i1].handler.name, CommandOf(m))
    ensures var pool := Pool(entries, publics, m, ratio);
      var winners := Best(pool, CommandOf(m), ratio, ratio(pool[i1].handler.name, CommandOf(m)));
      Dispatch(entries, publics, m, ratio)
        == Ok(Some("Did you mean any of " + PyText.Join(", ", BotNames(winners)) + "?"))
  {
    ExactNone(entries, m);
    var pool := Pool(entries, publics, m, ratio);
    var command := CommandOf(m);
    var scores := Scores(pool, command, ratio);
    var best := MaxOf(scores);
    assert best == scores[i1];
    var winners := Best(pool, command, ratio, best);
    BestWithTwo(pool, command, ratio, best, i1, i2);
    assert Fuzzy(pool, m, SplitCommand(Get(m, BodyKey, "")).args, publics, ratio) == Ok(Some(DidYouMean(winners)));
  }

  /** Two distinct positions scoring `best` keep at least two candidates. */
  lemma {:induction false} BestWithTwo(pool: seq<Wrapped>, command: string, ratio: Ratio, best: int, i1: nat, i2: nat)
    requires i1 < i2 < |pool|
    requires ratio(pool[i1].handler.name, command) == best && ratio(pool[i2].handler.name, command) == best
    ensures |Best(pool, command, ratio, best)| >= 2
    decreases |pool|
  {
    if i1 == 0 {
      BestMembers(pool[1..], command, ratio, best);
      assert pool[i2] == pool[1..][i2 - 1];
    } else {
      BestWithTwo(pool[1..], command, ratio, best, i1 - 1, i2 - 1);
    }
  }
}
