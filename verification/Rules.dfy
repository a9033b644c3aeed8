/** Rewriting of command and response bytes by rules, after `ApplyRules` and
    `GetApduFromHistory` of `Winscard.cpp`. */
module Rules {
  import opened Bytes
  import opened Wrappers

  const MAX_APDU_LENGTH := 300
  const OFFSET_CDATA := 5
  const LC_ELEM := 4
  const LE_ELEM := 299
  const INPUT_APDU := 1

  type Apdu = s: seq<Byte> | |s| == 300 witness seq(300, _ => 0)

  /** One byte to be found in a stored APDU, or one byte to be written. */
  datatype SingleRule = SingleRule(valid: bool, history: int, apduDirection: int, element: int, value: Byte)

  datatype Rule = Rule(usage: int, direction: int, matchRules: seq<SingleRule>, actionRules: seq<SingleRule>)

  /** What has passed so far, the latest first. */
  datatype History = History(ins: seq<Apdu>, outs: seq<Apdu>)

  // ---------------------------------------------------------------- which rules fire

  /** The positions that the lists and buffers have. Going back in the stored responses
      does not end, so that only the latest one can be asked for. */
  predicate Reachable(h: History, m: SingleRule) {
    && 0 <= m.element < MAX_APDU_LENGTH
    && if m.apduDirection == INPUT_APDU then m.history <= |h.ins| else m.history <= 0 && h.outs != []
  }

  /** Behind the last stored command everything is zero. */
  function Recalled(h: History, m: SingleRule): (a: Apdu)
    requires Reachable(h, m)
  {
    if m.apduDirection != INPUT_APDU then h.outs[0]
    else
      var back := if m.history < 0 then 0 else m.history;
      if back < |h.ins| then h.ins[back] else seq(MAX_APDU_LENGTH, _ => 0)
  }

  predicate Considered(r: Rule, direction: int) {
    r.direction == direction && r.usage == 1
  }

  predicate WellFormed(h: History, r: Rule) {
    && (forall i :: 0 <= i < |r.matchRules| ==> Reachable(h, r.matchRules[i]))
    && (forall i :: 0 <= i < |r.actionRules| ==> 0 <= r.actionRules[i].element < MAX_APDU_LENGTH)
  }

  predicate AllWellFormed(h: History, rs: seq<Rule>, direction: int) {
    forall i :: 0 <= i < |rs| && Considered(rs[i], direction) ==> WellFormed(h, rs[i])
  }

  predicate Matches(h: History, m: SingleRule)
    requires Reachable(h, m)
  {
    Recalled(h, m)[m.element] == m.value
  }

  /** Only the history decides: neither the buffer nor the actions of other rules. */
  predicate Fires(h: History, r: Rule, direction: int)
    requires Considered(r, direction) ==> WellFormed(h, r)
  {
    Considered(r, direction) && forall i :: 0 <= i < |r.matchRules| ==> Matches(h, r.matchRules[i])
  }

  /** A rule fires exactly when it is active, of the right direction, and the value of each
      of its matches is the byte stored at its place: of the latest response, of a stored
      command, or zero one behind the list of commands. */
  lemma FiresExactly(h: History, r: Rule, direction: int)
    requires WellFormed(h, r)
    ensures Fires(h, r, direction) <==>
      && r.usage == 1 && r.direction == direction
      && forall i :: 0 <= i < |r.matchRules| ==>
        var m := r.matchRules[i];
        m.value ==
          if m.apduDirection != 1 then h.outs[0][m.element]
          else if m.history <= 0 && h.ins != [] then h.ins[0][m.element]
          else if 0 < m.history < |h.ins| then h.ins[m.history][m.element]
          else 0
  {
  }

  /** Any other value in one match of a rule that fires stops it. */
  lemma OtherValueStops(h: History, r: Rule, direction: int, k: nat, value: Byte)
    requires WellFormed(h, r) && Fires(h, r, direction) && k < |r.matchRules| && value != r.matchRules[k].value
    ensures !Fires(h, r.(matchRules := r.matchRules[k := r.matchRules[k].(value := value)]), direction)
  {
    var r' := r.(matchRules := r.matchRules[k := r.matchRules[k].(value := value)]);
    assert WellFormed(h, r');
    assert Matches(h, r.matchRules[k]) && !Matches(h, r'.matchRules[k]);
  }

  predicate SomeFires(h: History, rs: seq<Rule>, direction: int)
    requires AllWellFormed(h, rs, direction)
  {
    exists i :: 0 <= i < |rs| && Fires(h, rs[i], direction)
  }

  // ---------------------------------------------------------------- what they write

  function Valid(actions: seq<SingleRule>): (as': seq<SingleRule>) {
    if actions == [] then []
    else Valid(actions[..|actions| - 1]) + if actions[|actions| - 1].valid then [actions[|actions| - 1]] else []
  }

  /** The valid actions of the rules that fire, in order. */
  function Effects(h: History, rs: seq<Rule>, direction: int): (es: seq<SingleRule>)
    requires AllWellFormed(h, rs, direction)
  {
    if rs == [] then []
    else
      var r := rs[|rs| - 1];
      Effects(h, rs[..|rs| - 1], direction) + if Fires(h, r, direction) then Valid(r.actionRules) else []
  }

  lemma {:induction false} ValidAre(actions: seq<SingleRule>, e: SingleRule)
    ensures e in Valid(actions) <==> e in actions && e.valid
  {
    if actions != [] {
      ValidAre(actions[..|actions| - 1], e);
      assert actions == actions[..|actions| - 1] + [actions[|actions| - 1]];
    }
  }

  /** Nothing but the valid actions of rules that fire is carried out, and all of them are. */
  lemma {:induction false} EffectsAre(h: History, rs: seq<Rule>, direction: int, e: SingleRule)
    requires AllWellFormed(h, rs, direction)
    ensures e in Effects(h, rs, direction) <==>
      e.valid && exists r :: r in rs && Fires(h, r, direction) && e in r.actionRules
  {
    hide WellFormed, Valid;
    if rs != [] {
      var init, l := rs[..|rs| - 1], rs[|rs| - 1];
      EffectsAre(h, init, direction, e);
      ValidAre(l.actionRules, e);
      assert rs == init + [l];
    }
  }

  predicate InRange(es: seq<SingleRule>) {
    forall i :: 0 <= i < |es| ==> 0 <= es[i].element < MAX_APDU_LENGTH
  }

  /** The value that is written last on an element. */
  function LastOn(es: seq<SingleRule>, element: int): (v: Option<Byte>) {
    if es == [] then None
    else if es[|es| - 1].element == element then Some(es[|es| - 1].value)
    else LastOn(es[..|es| - 1], element)
  }

  function OrElse(v: Option<Byte>, other: int): int {
    if v.Some? then v.value else other
  }

  /** The `i`th action writes the element, and no later one does. */
  predicate IsLastWriter(es: seq<SingleRule>, element: int, i: nat)
    requires i < |es|
  {
    es[i].element == element && forall j :: i < j < |es| ==> es[j].element != element
  }

  lemma {:induction false} LastOnIs(es: seq<SingleRule>, element: int)
    ensures LastOn(es, element).None? <==> forall i :: 0 <= i < |es| ==> es[i].element != element
    ensures forall i :: 0 <= i < |es| && IsLastWriter(es, element, i) ==> LastOn(es, element) == Some(es[i].value)
    ensures LastOn(es, element).Some? ==> exists i :: 0 <= i < |es| && IsLastWriter(es, element, i)
  {
    if es != [] && es[|es| - 1].element != element {
      var init := es[..|es| - 1];
      LastOnIs(init, element);
      assert forall i :: 0 <= i < |init| ==> init[i] == es[i];
      forall i | 0 <= i < |init|
        ensures IsLastWriter(init, element, i) <==> IsLastWriter(es, element, i)
      {
      }
    } else if es != [] {
      assert IsLastWriter(es, element, |es| - 1);
    }
  }

  lemma LastOnNext(es: seq<SingleRule>, e: SingleRule, element: int)
    ensures LastOn(es + [e], element) == if e.element == element then Some(e.value) else LastOn(es, element)
  {
    assert (es + [e])[..|es|] == es;
  }

  lemma ValidNext(actions: seq<SingleRule>, i: nat)
    requires i < |actions|
    ensures Valid(actions[..i + 1]) == Valid(actions[..i]) + if actions[i].valid then [actions[i]] else []
  {
    assert actions[..i + 1][..i] == actions[..i];
  }

  lemma EffectsNext(h: History, rs: seq<Rule>, direction: int, i: nat)
    requires AllWellFormed(h, rs, direction) && i < |rs|
    ensures AllWellFormed(h, rs[..i], direction) && AllWellFormed(h, rs[..i + 1], direction)
    ensures Effects(h, rs[..i + 1], direction) ==
      Effects(h, rs[..i], direction) + if Fires(h, rs[i], direction) then Valid(rs[i].actionRules) else []
  {
    assert rs[..i + 1][..i] == rs[..i];
  }

  /** The action is carried out on the element if its rule fires. */
  predicate ActsOn(a: SingleRule, element: int) {
    a.valid && a.element == element
  }

  /** No action from number `k` on acts on the element. */
  predicate NoneActsFrom(actions: seq<SingleRule>, k: nat, element: int) {
    forall j :: k <= j < |actions| ==> !ActsOn(actions[j], element)
  }

  /** No rule from number `k` on fires and writes the element. */
  predicate NoneWritesFrom(h: History, rs: seq<Rule>, direction: int, k: nat, element: int)
    requires AllWellFormed(h, rs, direction)
  {
    forall q :: k <= q < |rs| && Fires(h, rs[q], direction) ==> NoneActsFrom(rs[q].actionRules, 0, element)
  }

  predicate IsLastAction(actions: seq<SingleRule>, j: nat, element: int) {
    j < |actions| && ActsOn(actions[j], element) && NoneActsFrom(actions, j + 1, element)
  }

  /** Action `j` of rule `q` acts on the element, and neither a later action of the rule nor
      a later rule that fires does. */
  predicate WritesLast(h: History, rs: seq<Rule>, direction: int, element: int, q: nat, j: nat)
    requires AllWellFormed(h, rs, direction)
  {
    && q < |rs| && Fires(h, rs[q], direction) && IsLastAction(rs[q].actionRules, j, element)
    && NoneWritesFrom(h, rs, direction, q + 1, element)
  }

  lemma {:induction false} LastActionOf(actions: seq<SingleRule>, element: int)
    ensures NoneActsFrom(actions, 0, element) ==> LastOn(Valid(actions), element).None?
    ensures forall j {:trigger IsLastAction(actions, j, element)} :: 0 <= j && IsLastAction(actions, j, element) ==>
      LastOn(Valid(actions), element) == Some(actions[j].value)
  {
    if actions != [] {
      var init, l := actions[..|actions| - 1], actions[|actions| - 1];
      LastActionOf(init, element);
      LastOnNext(Valid(init), l, element);
      assert Valid(init) + [] == Valid(init);
      forall j {:trigger IsLastAction(actions, j, element)} | 0 <= j < |init| && IsLastAction(actions, j, element)
        ensures IsLastAction(init, j, element) && !ActsOn(l, element)
      {
      }
      if NoneActsFrom(actions, 0, element) {
        assert NoneActsFrom(init, 0, element) && !ActsOn(l, element);
      }
    }
  }

  /** What counts is the last valid action on an element in the last rule that fires and has
      one. */
  lemma {:induction false} LastWriter(h: History, rs: seq<Rule>, direction: int, element: int)
    requires AllWellFormed(h, rs, direction)
    ensures NoneWritesFrom(h, rs, direction, 0, element) ==> LastOn(Effects(h, rs, direction), element).None?
    ensures forall q, j :: 0 <= q < |rs| && 0 <= j && WritesLast(h, rs, direction, element, q, j) ==>
      LastOn(Effects(h, rs, direction), element) == Some(rs[q].actionRules[j].value)
  {
    hide Fires, WellFormed, ActsOn, NoneActsFrom, IsLastAction, Valid, LastOn;
    LastOnNothing(element);
    if rs != [] {
      var init, l := rs[..|rs| - 1], rs[|rs| - 1];
      LastWriter(h, init, direction, element);
      LastActionOf(l.actionRules, element);
      LastOnMore(Effects(h, init, direction), if Fires(h, l, direction) then Valid(l.actionRules) else [], element);
      var es := Effects(h, init, direction);
      assert es + [] == es;
      forall q, j | 0 <= q < |init| && 0 <= j && WritesLast(h, rs, direction, element, q, j)
        ensures WritesLast(h, init, direction, element, q, j)
        ensures Fires(h, l, direction) ==> NoneActsFrom(l.actionRules, 0, element)
      {
        assert rs[|init|] == l;
      }
      if NoneWritesFrom(h, rs, direction, 0, element) {
        assert NoneWritesFrom(h, init, direction, 0, element);
        assert rs[|init|] == l;
      }
    }
  }

  lemma LastOnNothing(element: int)
    ensures LastOn([], element).None?
  {
  }

  // ---------------------------------------------------------------- the result

  /** The length that is given back: for commands that of the command data as it came, if
      a rule fired, and otherwise the last length that a rule set. */
  function LengthAfter(h: History, rs: seq<Rule>, direction: int, bytes: seq<Byte>, length: nat): (n: int)
    requires AllWellFormed(h, rs, direction)
    requires direction == INPUT_APDU ==> |bytes| > LC_ELEM
  {
    if direction == INPUT_APDU && SomeFires(h, rs, direction) then bytes[LC_ELEM] + OFFSET_CDATA
    else OrElse(LastOn(Effects(h, rs, direction), LE_ELEM), length)
  }

  /** The element with the number of the length is not written as a byte. */
  function WrittenTo(es: seq<SingleRule>, i: int): (v: Option<Byte>) {
    if i == LE_ELEM then None else LastOn(es, i)
  }

  /** A byte of the result; `rest` is what happened to be behind the original bytes. */
  function ByteAfter(es: seq<SingleRule>, bytes: seq<Byte>, length: nat, rest: Apdu, i: nat): (b: int)
    requires length <= |bytes| && i < MAX_APDU_LENGTH
  {
    OrElse(WrittenTo(es, i), if i < length then bytes[i] else rest[i])
  }

  lemma LengthBounds(h: History, rs: seq<Rule>, direction: int, bytes: seq<Byte>, length: nat)
    requires AllWellFormed(h, rs, direction) && length <= MAX_APDU_LENGTH
    requires direction == INPUT_APDU ==> |bytes| > LC_ELEM
    ensures 0 <= LengthAfter(h, rs, direction, bytes, length) <= MAX_APDU_LENGTH
  {
  }

  /** The buffer after the rules: the bytes that are given back, then those left alone. */
  function Rewritten(h: History, rs: seq<Rule>, direction: int, bytes: seq<Byte>, length: nat, rest: Apdu)
    : (now: seq<Byte>)
    requires AllWellFormed(h, rs, direction) && length <= MAX_APDU_LENGTH && length <= |bytes|
    requires direction == INPUT_APDU ==> |bytes| > LC_ELEM
    requires LengthAfter(h, rs, direction, bytes, length) <= |bytes|
    ensures |now| == |bytes|
  {
    LengthBounds(h, rs, direction, bytes, length);
    var n := LengthAfter(h, rs, direction, bytes, length);
    var es := Effects(h, rs, direction);
    seq(|bytes|, i requires 0 <= i < |bytes| =>
      if i < n then ByteAfter(es, bytes, length, rest, i) as Byte else bytes[i])
  }

  /** `now` is `was` with the actions carried out. */
  ghost predicate Carried(was: seq<Byte>, now: seq<Byte>, es: seq<SingleRule>) {
    && |was| == |now| == MAX_APDU_LENGTH
    && forall i :: 0 <= i < MAX_APDU_LENGTH ==> now[i] == OrElse(WrittenTo(es, i), was[i])
  }

  lemma {:induction false} LastOnMore(es: seq<SingleRule>, fs: seq<SingleRule>, element: int)
    ensures LastOn(es + fs, element) == if LastOn(fs, element).Some? then LastOn(fs, element) else LastOn(es, element)
  {
    if fs == [] {
      assert es + fs == es;
    } else {
      assert (es + fs)[..|es + fs| - 1] == es + fs[..|fs| - 1];
      LastOnMore(es, fs[..|fs| - 1], element);
    }
  }

  lemma CarriedMore(a: seq<Byte>, b: seq<Byte>, c: seq<Byte>, es: seq<SingleRule>, fs: seq<SingleRule>)
    requires Carried(a, b, es) && Carried(b, c, fs)
    ensures Carried(a, c, es + fs)
  {
    forall i | 0 <= i < MAX_APDU_LENGTH
      ensures c[i] == OrElse(WrittenTo(es + fs, i), a[i])
    {
      LastOnMore(es, fs, i);
    }
  }

  lemma CarriedNone(a: seq<Byte>)
    requires |a| == MAX_APDU_LENGTH
    ensures Carried(a, a, []) && forall e {:trigger LastOn([], e)} :: LastOn([], e).None?
  {
  }

  lemma CarriedOne(a: seq<Byte>, e: SingleRule)
    requires |a| == MAX_APDU_LENGTH && 0 <= e.element < MAX_APDU_LENGTH
    ensures Carried(a, if e.element == LE_ELEM then a else a[e.element := e.value], [e])
    ensures LastOn([e], LE_ELEM) == if e.element == LE_ELEM then Some(e.value) else None
  {
    forall i {:trigger LastOn([e], i)}
      ensures LastOn([e], i) == if e.element == i then Some(e.value) else None
    {
      assert [] + [e] == [e];
      LastOnNext([], e, i);
    }
  }

  class App {
    var rulesList: seq<Rule>
    var apduInList: seq<Apdu>
    var apduOutList: seq<Apdu>
    var rulesActive: bool

    function Past(): (h: History)
      reads this
    {
      History(apduInList, apduOutList)
    }

    /** Copies a stored APDU into the buffer, or leaves the buffer alone. For responses the
        list is not walked, as the loop that should do it does not count down. */
    method GetApduFromHistory(buffer: array<Byte>, history: int, apduDirection: int) returns (ok: bool)
      requires buffer.Length == MAX_APDU_LENGTH
      requires if apduDirection == INPUT_APDU then history <= |apduInList| else history <= 0 && apduOutList != []
      modifies buffer
      ensures ok <==> (apduDirection == INPUT_APDU ==> apduInList != [] && history < |apduInList|)
      ensures buffer[..] ==
        if !ok then old(buffer[..])
        else if apduDirection != INPUT_APDU then apduOutList[0]
        else apduInList[if history < 0 then 0 else history]
    {
      ok := true;
      if apduDirection == INPUT_APDU {
        var iter, back := 0, history;
        while back > 0
          invariant if history > 0 then 0 <= back && iter == history - back else back == history && iter == 0
        {
          iter := iter + 1;
          back := back - 1;
        }
        if iter != |apduInList| {
          CopyApdu(buffer, apduInList[iter]);
        } else {
          ok := false;
        }
      } else {
        CopyApdu(buffer, apduOutList[0]);
      }
    }

    /** Tests the matches of one rule against the history. */
    method AllMatch(rule: Rule, ghost direction: int) returns (all: bool)
      requires Considered(rule, direction) && WellFormed(Past(), rule)
      ensures all <==> Fires(Past(), rule, direction)
      ensures all <==> forall i :: 0 <= i < |rule.matchRules| ==>
        var m := rule.matchRules[i];
        m.value ==
          if m.apduDirection != 1 then apduOutList[0][m.element]
          else if m.history <= 0 && apduInList != [] then apduInList[0][m.element]
          else if 0 < m.history < |apduInList| then apduInList[m.history][m.element]
          else 0
    {
      FiresExactly(Past(), rule, direction);
      var i := 0;
      while i < |rule.matchRules|
        invariant 0 <= i <= |rule.matchRules|
        invariant forall j :: 0 <= j < i ==> Matches(Past(), rule.matchRules[j])
      {
        var m := rule.matchRules[i];
        var tempBuffer := new Byte[MAX_APDU_LENGTH](_ => 0);
        var _ := GetApduFromHistory(tempBuffer, m.history, m.apduDirection);
        assert tempBuffer[..] == Recalled(Past(), m);
        if tempBuffer[m.element] != m.value {
          return false;
        }
        i := i + 1;
      }
      all := true;
    }

    /** Rewrites the first bytes of the buffer. `rest` stands for what the local copy
        happens to hold behind them. */
    method ApplyRules(buffer: array<Byte>, length: nat, direction: int, rest: Apdu) returns (length': int)
      requires rulesActive ==>
        && AllWellFormed(Past(), rulesList, direction) && length <= MAX_APDU_LENGTH && length <= buffer.Length
        && (direction == INPUT_APDU ==> buffer.Length > LC_ELEM)
        && LengthAfter(Past(), rulesList, direction, buffer[..], length) <= buffer.Length
      modifies buffer
      ensures !rulesActive ==> length' == length && buffer[..] == old(buffer[..])
      ensures rulesActive ==>
        && 0 <= length' == LengthAfter(Past(), rulesList, direction, old(buffer[..]), length) <= buffer.Length
        && buffer[length'..] == old(buffer[length'..])
        && (forall i :: 0 <= i < length' ==>
          buffer[i] == ByteAfter(Effects(Past(), rulesList, direction), old(buffer[..]), length, rest, i))
        && buffer[..] == Rewritten(Past(), rulesList, direction, old(buffer[..]), length, rest)
    {
      hide LastOn, Effects, Fires, WellFormed;
      length' := length;
      if !rulesActive {
        return;
      }
      var newBuffer := new Byte[MAX_APDU_LENGTH](i requires 0 <= i < MAX_APDU_LENGTH => rest[i]);
      CopyBytes(newBuffer, buffer, length);
      ghost var was := newBuffer[..];
      var bRuleFound;
      length', bRuleFound := RunRules(newBuffer, length, direction);
      LengthBounds(Past(), rulesList, direction, buffer[..], length);
      if direction == INPUT_APDU && bRuleFound {
        length' := buffer[LC_ELEM] + OFFSET_CDATA;
      }
      CopyBytes(buffer, newBuffer, length');
    }

    /** All rules in order on the local copy. */
    method RunRules(newBuffer: array<Byte>, length: int, direction: int) returns (length': int, bRuleFound: bool)
      requires AllWellFormed(Past(), rulesList, direction) && newBuffer.Length == MAX_APDU_LENGTH
      modifies newBuffer
      ensures Carried(old(newBuffer[..]), newBuffer[..], Effects(Past(), rulesList, direction))
      ensures length' == OrElse(LastOn(Effects(Past(), rulesList, direction), LE_ELEM), length)
      ensures bRuleFound <==> SomeFires(Past(), rulesList, direction)
    {
      hide LastOn, Effects, Fires, WellFormed, Carried, Valid;
      ghost var was := newBuffer[..];
      length', bRuleFound := length, false;
      CarriedNone(was);
      EffectsNone(Past(), direction);
      var k := 0;
      assert rulesList[..0] == [];
      while k < |rulesList|
        invariant 0 <= k <= |rulesList| && AllWellFormed(Past(), rulesList[..k], direction)
        invariant Carried(was, newBuffer[..], Effects(Past(), rulesList[..k], direction))
        invariant length' == OrElse(LastOn(Effects(Past(), rulesList[..k], direction), LE_ELEM), length)
        invariant bRuleFound <==> exists i :: 0 <= i < k && Fires(Past(), rulesList[i], direction)
      {
        var rule := rulesList[k];
        EffectsNext(Past(), rulesList, direction, k);
        ghost var es := Effects(Past(), rulesList[..k], direction);
        assert es + [] == es;
        var fires := false;
        if rule.direction == direction && rule.usage == 1 {
          fires := AllMatch(rule, direction);
        } else {
          NotConsidered(Past(), rule, direction);
        }
        if fires {
          ghost var before := newBuffer[..];
          ActionsInRange(Past(), rule);
          length' := Act(rule.actionRules, newBuffer, length');
          CarriedMore(was, before, newBuffer[..], es, Valid(rule.actionRules));
          LastOnMore(es, Valid(rule.actionRules), LE_ELEM);
          bRuleFound := true;
        }
        k := k + 1;
      }
      assert rulesList[..k] == rulesList;
    }
  }

  lemma NotConsidered(h: History, r: Rule, direction: int)
    requires !Considered(r, direction)
    ensures !Fires(h, r, direction)
  {
  }

  lemma ActionsInRange(h: History, r: Rule)
    requires WellFormed(h, r)
    ensures InRange(r.actionRules)
  {
  }

  lemma EffectsNone(h: History, direction: int)
    ensures Effects(h, [], direction) == []
  {
  }

  method CopyApdu(buffer: array<Byte>, apdu: Apdu)
    requires buffer.Length == MAX_APDU_LENGTH
    modifies buffer
    ensures buffer[..] == apdu
  {
    forall i | 0 <= i < MAX_APDU_LENGTH {
      buffer[i] := apdu[i];
    }
  }

  method CopyBytes(to: array<Byte>, from: array<Byte>, n: nat)
    requires n <= to.Length && n <= from.Length
    modifies to
    ensures to[..] == old(from[..n]) + old(to[n..])
  {
    forall i | 0 <= i < n {
      to[i] := from[i];
    }
  }

  /** Carries out the valid actions of one rule. */
  method Act(actions: seq<SingleRule>, newBuffer: array<Byte>, length: int) returns (length': int)
    requires newBuffer.Length == MAX_APDU_LENGTH && InRange(actions)
    modifies newBuffer
    ensures length' == OrElse(LastOn(Valid(actions), LE_ELEM), length)
    ensures Carried(old(newBuffer[..]), newBuffer[..], Valid(actions))
  {
    hide LastOn, Valid, Carried;
    length' := length;
    ghost var was := newBuffer[..];
    CarriedNone(was);
    ValidNone();
    assert actions[..0] == [];
    var k := 0;
    while k < |actions|
      invariant 0 <= k <= |actions|
      invariant length' == OrElse(LastOn(Valid(actions[..k]), LE_ELEM), length)
      invariant Carried(was, newBuffer[..], Valid(actions[..k]))
    {
      var a := actions[k];
      ghost var es, before := Valid(actions[..k]), newBuffer[..];
      ValidNext(actions, k);
      assert es + [] == es;
      if a.valid {
        CarriedOne(before, a);
        LastOnMore(es, [a], LE_ELEM);
        if a.element == LE_ELEM {
          length' := a.value;
        } else {
          newBuffer[a.element] := a.value;
          assert newBuffer[..] == before[a.element := a.value];
        }
        CarriedMore(was, before, newBuffer[..], es, [a]);
      }
      k := k + 1;
    }
    assert actions[..k] == actions;
  }

  lemma ValidNone()
    ensures Valid([]) == []
  {
  }

  // ---------------------------------------------------------------- laws

  /** The length byte as it stands after a rule has fired: what a rule wrote, the byte as it
      came, or whatever is behind a command that is too short to have one. */
  function LengthByte(h: History, rs: seq<Rule>, bytes: seq<Byte>, length: nat, rest: Apdu): (b: int)
    requires AllWellFormed(h, rs, INPUT_APDU) && length <= |bytes|
  {
    ByteAfter(Effects(h, rs, INPUT_APDU), bytes, length, rest, LC_ELEM)
  }

  /** The length of a rewritten command agrees with its own length byte exactly when this
      byte is the same as before: the length is taken from the byte as it came. With five
      bytes or more that is when no rule wrote another value there. */
  lemma LengthAgrees(h: History, rs: seq<Rule>, bytes: seq<Byte>, length: nat, rest: Apdu)
    requires AllWellFormed(h, rs, INPUT_APDU) && length <= MAX_APDU_LENGTH && length <= |bytes| && LC_ELEM < |bytes|
    requires LengthAfter(h, rs, INPUT_APDU, bytes, length) <= |bytes| && SomeFires(h, rs, INPUT_APDU)
    ensures var now := Rewritten(h, rs, INPUT_APDU, bytes, length, rest);
      var w := LastOn(Effects(h, rs, INPUT_APDU), LC_ELEM);
      && now[LC_ELEM] == LengthByte(h, rs, bytes, length, rest)
      && (LengthAfter(h, rs, INPUT_APDU, bytes, length) == now[LC_ELEM] + OFFSET_CDATA <==>
        now[LC_ELEM] == bytes[LC_ELEM])
      && (LC_ELEM < length ==> (now[LC_ELEM] == bytes[LC_ELEM] <==> w == None || w == Some(bytes[LC_ELEM])))
  {
    hide LastOn, Effects, SomeFires, AllWellFormed;
  }

  /** A rule without matches that writes 9 as the length byte of a command with two bytes of
      data: the command keeps its length. */
  lemma LengthByteRewritten(h: History, rs: seq<Rule>, bytes: seq<Byte>, rest: Apdu)
    requires rs == [Rule(1, INPUT_APDU, [], [SingleRule(true, 0, INPUT_APDU, LC_ELEM, 9)])]
    requires bytes == [0, 164, 4, 0, 2, 63, 0]
    ensures AllWellFormed(h, rs, INPUT_APDU) && LengthAfter(h, rs, INPUT_APDU, bytes, 7) == 7
    ensures Rewritten(h, rs, INPUT_APDU, bytes, 7, rest)[LC_ELEM] == 9
  {
    hide Recalled;
    var a := SingleRule(true, 0, INPUT_APDU, LC_ELEM, 9);
    assert Fires(h, rs[0], INPUT_APDU);
    assert Valid([a]) == [a] by { assert [a][..0] == []; }
    assert Effects(h, rs, INPUT_APDU) == [a] by { assert rs[..0] == []; }
    assert SomeFires(h, rs, INPUT_APDU);
  }

  /** Applying the rules once more to what they gave back, with the same history: the
      length stays the same unless the length byte of a command has changed, and then the
      bytes stay the same as well. */
  lemma Again(h: History, rs: seq<Rule>, direction: int, bytes: seq<Byte>, length: nat, rest: Apdu, rest': Apdu)
    requires AllWellFormed(h, rs, direction) && length <= MAX_APDU_LENGTH && length <= |bytes|
    requires direction == INPUT_APDU ==> LC_ELEM < |bytes|
    requires LengthAfter(h, rs, direction, bytes, length) <= |bytes|
    ensures 0 <= LengthAfter(h, rs, direction, bytes, length) <= MAX_APDU_LENGTH
    ensures var now := Rewritten(h, rs, direction, bytes, length, rest);
      var n := LengthAfter(h, rs, direction, bytes, length);
      && (LengthAfter(h, rs, direction, now, n) == n <==>
        (direction == INPUT_APDU && SomeFires(h, rs, direction) ==>
          LengthByte(h, rs, bytes, length, rest) == bytes[LC_ELEM]))
      && (LengthAfter(h, rs, direction, now, n) == n ==> Rewritten(h, rs, direction, now, n, rest') == now)
  {
    hide LastOn, Effects, SomeFires, AllWellFormed;
    LengthBounds(h, rs, direction, bytes, length);
  }

  /** The bytes that are given back: each is the value of the last valid action on it in the
      last rule that fires and has one, or else the byte as it was. The others stay. */
  lemma BytesOfResult(h: History, rs: seq<Rule>, direction: int, bytes: seq<Byte>, length: nat, rest: Apdu, i: nat)
    requires AllWellFormed(h, rs, direction) && length <= MAX_APDU_LENGTH && length <= |bytes| && i < |bytes|
    requires direction == INPUT_APDU ==> LC_ELEM < |bytes|
    requires LengthAfter(h, rs, direction, bytes, length) <= |bytes|
    ensures var n := LengthAfter(h, rs, direction, bytes, length);
      var now := Rewritten(h, rs, direction, bytes, length, rest);
      && |now| == |bytes| && n <= 300
      && (i >= n ==> now[i] == bytes[i])
      && (i < n && (i == 299 || NoneWritesFrom(h, rs, direction, 0, i)) ==>
        now[i] == if i < length then bytes[i] else rest[i])
      && (i < n && i != 299 ==> forall q, j :: 0 <= q < |rs| && 0 <= j && WritesLast(h, rs, direction, i, q, j) ==>
        now[i] == rs[q].actionRules[j].value)
  {
    hide LastOn, Effects, WritesLast, NoneWritesFrom, Fires, WellFormed, SomeFires;
    LengthBounds(h, rs, direction, bytes, length);
    LastWriter(h, rs, direction, i);
  }

  /** The length that is given back: for a command that a rule fires for what its length byte
      said, and otherwise the value of the last action on the length, if there is one. */
  lemma LengthOfResult(h: History, rs: seq<Rule>, direction: int, bytes: seq<Byte>, length: nat)
    requires AllWellFormed(h, rs, direction)
    requires direction == INPUT_APDU ==> LC_ELEM < |bytes|
    ensures var n := LengthAfter(h, rs, direction, bytes, length);
      if direction == 1 && SomeFires(h, rs, direction) then n == bytes[4] as int + 5
      else
        && (NoneWritesFrom(h, rs, direction, 0, 299) ==> n == length)
        && (direction == 1 ==> NoneWritesFrom(h, rs, direction, 0, 299))
        && forall q, j :: 0 <= q < |rs| && 0 <= j && WritesLast(h, rs, direction, 299, q, j) ==>
          n == rs[q].actionRules[j].value
  {
    hide LastOn, Effects, WritesLast, Fires, WellFormed;
    LastWriter(h, rs, direction, 299);
  }

  /** A rule that asks for the byte 164 in the latest command, and writes 7 as the fourth byte
      of the command at hand: it does so for just those histories. */
  lemma MatchDecides(h: History, rs: seq<Rule>, bytes: seq<Byte>, rest: Apdu)
    requires rs ==
      [Rule(1, INPUT_APDU, [SingleRule(true, 0, INPUT_APDU, 1, 164)], [SingleRule(true, 0, INPUT_APDU, 3, 7)])]
    requires bytes == [0, 164, 4, 0, 2, 63, 0] && h.ins != []
    ensures AllWellFormed(h, rs, INPUT_APDU) && LengthAfter(h, rs, INPUT_APDU, bytes, 7) == 7
    ensures Rewritten(h, rs, INPUT_APDU, bytes, 7, rest) ==
      if h.ins[0][1] == 164 then [0, 164, 4, 7, 2, 63, 0] else [0, 164, 4, 0, 2, 63, 0]
  {
    hide Fires, Valid, LastOn, Effects, SomeFires;
    FiresExactly(h, rs[0], INPUT_APDU);
    OneRule(h, rs[0], INPUT_APDU);
    assert rs == [rs[0]];
    OneAction(rs[0].actionRules[0]);
    NoAction();
    assert bytes[3 := 7] == [0, 164, 4, 7, 2, 63, 0];
    assert rs[0].matchRules[0].value == 164;
    assert Fires(h, rs[0], INPUT_APDU) <==> h.ins[0][1] == 164;
    OneByteWritten(h, rs, bytes, rest, 3, if h.ins[0][1] == 164 then Some(7) else None);
  }

  lemma OneAction(a: SingleRule)
    requires a.valid
    ensures Valid([a]) == [a]
    ensures forall i :: LastOn([a], i) == if a.element == i then Some(a.value) else None
  {
    assert [a][..0] == [];
  }

  lemma NoAction()
    ensures forall i :: LastOn([], i).None?
  {
  }

  /** Where no effect is on another byte than `k`, the result is the command with this byte
      replaced. */
  lemma OneByteWritten(h: History, rs: seq<Rule>, bytes: seq<Byte>, rest: Apdu, k: nat, value: Option<Byte>)
    requires AllWellFormed(h, rs, INPUT_APDU) && LC_ELEM < |bytes| <= LE_ELEM && k < |bytes|
    requires LengthAfter(h, rs, INPUT_APDU, bytes, |bytes|) == |bytes|
    requires forall i :: LastOn(Effects(h, rs, INPUT_APDU), i) == if i == k then value else None
    ensures Rewritten(h, rs, INPUT_APDU, bytes, |bytes|, rest) ==
      if value.Some? then bytes[k := value.value] else bytes
  {
    hide LastOn, Effects, SomeFires;
  }

  lemma OneRule(h: History, r: Rule, direction: int)
    requires WellFormed(h, r)
    ensures AllWellFormed(h, [r], direction)
    ensures Effects(h, [r], direction) == if Fires(h, r, direction) then Valid(r.actionRules) else []
    ensures SomeFires(h, [r], direction) <==> Fires(h, r, direction)
  {
    hide Fires;
    assert [r][..0] == [] && [r][0] == r;
  }

  /** A rule for responses that sets the length to two: the bytes stay. */
  lemma LengthSetByRule(h: History, rs: seq<Rule>, bytes: seq<Byte>, rest: Apdu)
    requires rs == [Rule(1, 0, [], [SingleRule(true, 0, 0, 299, 2)])] && bytes == [97, 98, 144, 0]
    ensures AllWellFormed(h, rs, 0) && LengthAfter(h, rs, 0, bytes, 4) == 2
    ensures Rewritten(h, rs, 0, bytes, 4, rest) == bytes
  {
    var a := SingleRule(true, 0, 0, 299, 2);
    assert Valid([a]) == [a] by { assert [a][..0] == []; }
    assert Effects(h, rs, 0) == [a] by { assert rs[..0] == []; }
  }

  // ---------------------------------------------------------------- bytes from nowhere

  /** The result does not depend on what the local copy holds behind the original bytes. */
  ghost predicate RestIrrelevant(h: History, rs: seq<Rule>, direction: int, bytes: seq<Byte>, length: nat)
    requires AllWellFormed(h, rs, direction) && length <= MAX_APDU_LENGTH && length <= |bytes|
    requires direction == INPUT_APDU ==> LC_ELEM < |bytes|
    requires LengthAfter(h, rs, direction, bytes, length) <= |bytes|
  {
    forall rest: Apdu, rest': Apdu ::
      Rewritten(h, rs, direction, bytes, length, rest) == Rewritten(h, rs, direction, bytes, length, rest')
  }

  predicate WrittenBetween(es: seq<SingleRule>, from: int, to: int) {
    forall i :: from <= i < to ==> WrittenTo(es, i).Some?
  }

  /** Every byte that is given back is well determined if and only if each one behind the
      original bytes is written by a rule. */
  lemma AllWritten(h: History, rs: seq<Rule>, direction: int, bytes: seq<Byte>, length: nat)
    requires AllWellFormed(h, rs, direction) && length <= MAX_APDU_LENGTH && length <= |bytes|
    requires direction == INPUT_APDU ==> LC_ELEM < |bytes|
    requires LengthAfter(h, rs, direction, bytes, length) <= |bytes|
    ensures RestIrrelevant(h, rs, direction, bytes, length) <==>
      WrittenBetween(Effects(h, rs, direction), length, LengthAfter(h, rs, direction, bytes, length))
  {
    hide LastOn, Effects, SomeFires, AllWellFormed, WrittenTo;
    LengthBounds(h, rs, direction, bytes, length);
    var n, es := LengthAfter(h, rs, direction, bytes, length), Effects(h, rs, direction);
    if !WrittenBetween(es, length, n) {
      var i :| length <= i < n && WrittenTo(es, i).None?;
      var zeros, ones: Apdu := seq(MAX_APDU_LENGTH, _ => 0), seq(MAX_APDU_LENGTH, _ => 1);
      var a, b := Rewritten(h, rs, direction, bytes, length, zeros), Rewritten(h, rs, direction, bytes, length, ones);
      assert a[i] == 0 && b[i] == 1;
      assert !RestIrrelevant(h, rs, direction, bytes, length) by { assert a != b; }
    }
  }

  /** A command of five bytes that asks for 16 bytes: any rule that fires makes it 21 bytes
      long, of which the last 16 come from nowhere. */
  lemma ShortCommandGrows(h: History, rs: seq<Rule>, bytes: seq<Byte>)
    requires rs == [Rule(1, INPUT_APDU, [], [])]
    requires |bytes| == MAX_APDU_LENGTH && bytes[..5] == [0, 176, 0, 0, 16]
    ensures AllWellFormed(h, rs, INPUT_APDU) && LengthAfter(h, rs, INPUT_APDU, bytes, 5) == 21
    ensures !RestIrrelevant(h, rs, INPUT_APDU, bytes, 5)
  {
    hide RestIrrelevant;
    assert bytes[..5][LC_ELEM] == 16;
    assert Fires(h, rs[0], INPUT_APDU);
    assert SomeFires(h, rs, INPUT_APDU);
    NoEffects(h, rs);
    assert WrittenTo([], 5).None?;
    AllWritten(h, rs, INPUT_APDU, bytes, 5);
  }

  lemma NoEffects(h: History, rs: seq<Rule>)
    requires rs == [Rule(1, INPUT_APDU, [], [])]
    ensures AllWellFormed(h, rs, INPUT_APDU) && Effects(h, rs, INPUT_APDU) == []
  {
    assert rs[..0] == [];
  }
}
