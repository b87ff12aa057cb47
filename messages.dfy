/** The message store `AstroEmpires.Msg`: a dictionary from message id to
    message record, plus a cursor (the fields of the current message) that
    `get` fills in and that `getNext`/`getPrev` walk from. One store holds
    guild messages, another private mail. */
module Messages {
  import opened Js

  /** A stored message: the six properties `set` copies out of its argument. */
  datatype Message = Message(
    id: JsValue,
    time: Time,
    playerId: JsValue,
    playerName: JsValue,
    message: JsValue,
    read: JsValue)

  /** What the store publishes: `msg_add_pre` with `{msgId, message}`. The
      store itself goes to the observers as well; `store` is what they find
      in it at that moment. */
  datatype MsgEvent = MsgAddPre(msgId: JsValue, message: Arg<Message>, store: map<string, Message>)

  /** Which way along the time line a scan heads: Forward for getFirst and
      getNext, Backward for getLast and getPrev. */
  datatype Direction = Forward | Backward

  /** a lies strictly ahead of b when heading in direction d: `a < b` for
      Forward, `a > b` for Backward. */
  predicate Precedes(d: Direction, a: Time, b: Time) {
    if d == Forward then TimeLt(a, b) else TimeLt(b, a)
  }

  /** `a <= b` for Forward, `a >= b` for Backward. */
  predicate PrecedesOrTies(d: Direction, a: Time, b: Time) {
    if d == Forward then TimeLe(a, b) else TimeLe(b, a)
  }

  predicate KeysIn(m: map<string, Message>, ks: seq<string>) {
    forall k | k in ks :: k in m
  }

  /** Every record's own `id` property names the key it is stored under, as
      when a caller writes `set(id, {id: id, …})`. */
  predicate WellKeyed(m: map<string, Message>) {
    forall k | k in m :: ToStr(m[k].id) == k
  }

  /** The position getFirst (Forward) or getLast (Backward) ends on after its
      for-in loop over ks: the first record, replaced by each later record
      whose time strictly precedes the one held. */
  function ExtremePos(m: map<string, Message>, ks: seq<string>, d: Direction): (r: Option<nat>)
    requires KeysIn(m, ks)
    ensures r.None? <==> ks == []
    ensures r.Some? ==> r.value < |ks|
    decreases |ks|
  {
    if ks == [] then None
    else
      var prev := ExtremePos(m, ks[..|ks| - 1], d);
      var i := |ks| - 1;
      if prev.None? || Precedes(d, m[ks[i]].time, m[ks[prev.value]].time) then Some(i) else prev
  }

  /** When the first record in iteration order has a numeric time, the loop
      lands on a record with the least (Forward) or greatest (Backward) time
      among all records with a numeric time, and on the first such record in
      iteration order: the comparison is strict, so a tie never replaces. */
  lemma {:induction false} ExtremePosIsExtreme(m: map<string, Message>, ks: seq<string>, d: Direction)
    requires KeysIn(m, ks) && ks != [] && m[ks[0]].time.At?
    ensures var p := ExtremePos(m, ks, d).value;
      && m[ks[p]].time.At?
      && (forall j | 0 <= j < |ks| && m[ks[j]].time.At? :: PrecedesOrTies(d, m[ks[p]].time, m[ks[j]].time))
      && (forall j | 0 <= j < p && m[ks[j]].time.At? :: Precedes(d, m[ks[p]].time, m[ks[j]].time))
    decreases |ks|
  {
    if |ks| > 1 {
      var init := ks[..|ks| - 1];
      assert init[0] == ks[0];
      ExtremePosIsExtreme(m, init, d);
      assert forall j | 0 <= j < |init| :: init[j] == ks[j];
    }
  }

  /** A first record without a numeric time (undefined, or NaN from a failed
      date parse) is never replaced, because every comparison with it is
      false: getFirst and getLast both land on it. */
  lemma {:induction false} ExtremePosStuckOnNoTime(m: map<string, Message>, ks: seq<string>, d: Direction)
    requires KeysIn(m, ks) && ks != [] && m[ks[0]].time.NoTime?
    ensures ExtremePos(m, ks, d) == Some(0)
    decreases |ks|
  {
    if |ks| > 1 {
      var init := ks[..|ks| - 1];
      assert init[0] == ks[0];
      ExtremePosStuckOnNoTime(m, init, d);
    }
  }

  /** Whether the record at position i passes getNext's (Forward) or
      getPrev's (Backward) filter: its time is at or after (at or before)
      the cursor's time, and its key is not the cursor's id. */
  predicate Qualifies(m: map<string, Message>, ks: seq<string>, i: nat, d: Direction, cur: Time, curId: JsValue)
    requires KeysIn(m, ks) && i < |ks|
  {
    PrecedesOrTies(d, cur, m[ks[i]].time) && !LooseEqualsKey(ks[i], curId)
  }

  /** The position getNext (Forward) or getPrev (Backward) ends on after its
      for-in loop over ks: the nearest qualifying record, where a later
      qualifying record with the same time replaces the one held. */
  function NearestPos(m: map<string, Message>, ks: seq<string>, d: Direction, cur: Time, curId: JsValue): (r: Option<nat>)
    requires KeysIn(m, ks)
    ensures r.None? <==> forall j | 0 <= j < |ks| :: !Qualifies(m, ks, j, d, cur, curId)
    ensures r.Some? ==> r.value < |ks| && Qualifies(m, ks, r.value, d, cur, curId)
    ensures r.Some? ==> forall j | 0 <= j < |ks| && Qualifies(m, ks, j, d, cur, curId) ::
      PrecedesOrTies(d, m[ks[r.value]].time, m[ks[j]].time)
    ensures r.Some? ==> forall j | r.value < j < |ks| && Qualifies(m, ks, j, d, cur, curId) ::
      Precedes(d, m[ks[r.value]].time, m[ks[j]].time)
    decreases |ks|
  {
    if ks == [] then None
    else
      var init := ks[..|ks| - 1];
      var prev := NearestPos(m, init, d, cur, curId);
      var i := |ks| - 1;
      assert forall j | 0 <= j < |init| :: init[j] == ks[j] && (Qualifies(m, init, j, d, cur, curId) <==> Qualifies(m, ks, j, d, cur, curId));
      if Qualifies(m, ks, i, d, cur, curId) && (prev.None? || PrecedesOrTies(d, m[ks[i]].time, m[ks[prev.value]].time)) then
        Some(i)
      else
        prev
  }

  // ---------------------------------------------------------------------
  // Walking through records with equal times

  /** The three-record store {"1": time 100, "2": time 100, "3": time 200},
      each record stored under its own numeric id. */
  function TiedStore(): map<string, Message> {
    map["1" := Message(Num(1), At(100), Null, Null, Null, Null),
        "2" := Message(Num(2), At(100), Null, Null, Null, Null),
        "3" := Message(Num(3), At(200), Null, Null, Null, Null)]
  }

  function TiedOrder(): seq<string> { ["1", "2", "3"] }

  /** As written, getNext never gets past two records with the same time:
      from "1" it lands on "2", and from "2" back on "1", so repeated calls
      alternate between them and the later record "3" is never reached. */
  lemma NextAlternatesOnTiedTimes()
    ensures KeysIn(TiedStore(), TiedOrder())
    ensures NearestPos(TiedStore(), TiedOrder(), Forward, At(100), Num(1)) == Some(1)
    ensures TiedStore()[TiedOrder()[1]].time == At(100) && TiedStore()[TiedOrder()[1]].id == Num(2)
    ensures NearestPos(TiedStore(), TiedOrder(), Forward, At(100), Num(2)) == Some(0)
    ensures TiedStore()[TiedOrder()[0]].time == At(100) && TiedStore()[TiedOrder()[0]].id == Num(1)
  {
    var m, ks := TiedStore(), TiedOrder();
    assert IntToString(1) == "1" && IntToString(2) == "2";
    assert Qualifies(m, ks, 1, Forward, At(100), Num(1));
    assert Qualifies(m, ks, 0, Forward, At(100), Num(2));
    assert !Qualifies(m, ks, 0, Forward, At(100), Num(1));
    assert !Qualifies(m, ks, 1, Forward, At(100), Num(2));
  }

  /** (t1, p1) comes strictly after (t2, p2) when heading in direction d,
      ranking records by time and then by position in iteration order.
      A record without a numeric time is never ahead, and nothing is ahead of it. */
  predicate RankAhead(d: Direction, t1: Time, p1: nat, t2: Time, p2: nat) {
    && t1.At? && t2.At?
    && if d == Forward then t2.t < t1.t || (t1.t == t2.t && p2 < p1)
       else t1.t < t2.t || (t1.t == t2.t && p1 < p2)
  }

  predicate AheadOf(m: map<string, Message>, ks: seq<string>, d: Direction, j: nat, t: Time, p: nat)
    requires KeysIn(m, ks) && j < |ks|
  {
    RankAhead(d, m[ks[j]].time, j, t, p)
  }

  lemma RankTransitive(d: Direction, t1: Time, p1: nat, t2: Time, p2: nat, t3: Time, p3: nat)
    requires RankAhead(d, t1, p1, t2, p2) && RankAhead(d, t2, p2, t3, p3)
    ensures RankAhead(d, t1, p1, t3, p3)
  {
  }

  /** Two timed records at different positions are ranked one way or the other. */
  lemma RankTotal(d: Direction, t1: Time, p1: nat, t2: Time, p2: nat)
    requires t1.At? && t2.At? && p1 != p2
    ensures RankAhead(d, t1, p1, t2, p2) || RankAhead(d, t2, p2, t1, p1)
  {
  }

  /** The intended getNext (Forward) and getPrev (Backward), given the
      cursor's time ct and its position cp in iteration order: the record
      ranked next after the cursor. Equal times are taken in iteration order,
      so each is visited once. */
  function NearestByRank(m: map<string, Message>, ks: seq<string>, d: Direction, ct: Time, cp: nat): (r: Option<nat>)
    requires KeysIn(m, ks)
    ensures r.None? <==> forall j | 0 <= j < |ks| :: !AheadOf(m, ks, d, j, ct, cp)
    ensures r.Some? ==> r.value < |ks| && AheadOf(m, ks, d, r.value, ct, cp)
    ensures r.Some? ==> forall j | 0 <= j < |ks| && j != r.value && AheadOf(m, ks, d, j, ct, cp) ::
      AheadOf(m, ks, d, j, m[ks[r.value]].time, r.value)
    decreases |ks|
  {
    if ks == [] then None
    else
      var init := ks[..|ks| - 1];
      var prev := NearestByRank(m, init, d, ct, cp);
      var i := |ks| - 1;
      assert forall j, t, p | 0 <= j < |init| :: init[j] == ks[j] && (AheadOf(m, init, d, j, t, p) <==> AheadOf(m, ks, d, j, t, p));
      if AheadOf(m, ks, d, i, ct, cp) && (prev.None? || AheadOf(m, ks, d, prev.value, m[ks[i]].time, i)) then
        assert forall j | 0 <= j < |ks| && j != i && AheadOf(m, ks, d, j, ct, cp) :: AheadOf(m, ks, d, j, m[ks[i]].time, i) by {
          forall j | 0 <= j < |ks| && j != i && AheadOf(m, ks, d, j, ct, cp)
            ensures AheadOf(m, ks, d, j, m[ks[i]].time, i)
          {
            assert j < |init| && AheadOf(m, init, d, j, ct, cp);
            if j != prev.value {
              assert AheadOf(m, init, d, j, m[init[prev.value]].time, prev.value);
              RankTransitive(d, m[ks[j]].time, j, m[ks[prev.value]].time, prev.value, m[ks[i]].time, i);
            }
          }
        }
        Some(i)
      else if prev.Some? && AheadOf(m, ks, d, i, ct, cp) then
        RankTotal(d, m[ks[i]].time, i, m[ks[prev.value]].time, prev.value);
        prev
      else
        prev
  }

  /** The positions repeated calls of the intended getNext/getPrev visit,
      starting from the cursor (ct, cp), for at most fuel calls. */
  function RankedWalk(m: map<string, Message>, ks: seq<string>, d: Direction, ct: Time, cp: nat, fuel: nat): (w: seq<nat>)
    requires KeysIn(m, ks)
    ensures forall i | 0 <= i < |w| :: w[i] < |ks|
    decreases fuel
  {
    if fuel == 0 then []
    else
      match NearestByRank(m, ks, d, ct, cp)
      case None => []
      case Some(r) => [r] + RankedWalk(m, ks, d, m[ks[r]].time, r, fuel - 1)
  }

  /** The intended walk only moves ahead of where it started, and never
      visits a record twice. */
  lemma {:induction false} RankedWalkNeverRepeats(m: map<string, Message>, ks: seq<string>, d: Direction, ct: Time, cp: nat, fuel: nat)
    requires KeysIn(m, ks)
    ensures forall i | 0 <= i < |RankedWalk(m, ks, d, ct, cp, fuel)| ::
      AheadOf(m, ks, d, RankedWalk(m, ks, d, ct, cp, fuel)[i], ct, cp)
    ensures forall i, j | 0 <= i < j < |RankedWalk(m, ks, d, ct, cp, fuel)| ::
      RankedWalk(m, ks, d, ct, cp, fuel)[i] != RankedWalk(m, ks, d, ct, cp, fuel)[j]
    decreases fuel
  {
    if fuel > 0 {
      var next := NearestByRank(m, ks, d, ct, cp);
      if next.Some? {
        var r := next.value;
        var rest := RankedWalk(m, ks, d, m[ks[r]].time, r, fuel - 1);
        RankedWalkNeverRepeats(m, ks, d, m[ks[r]].time, r, fuel - 1);
        assert forall i | 0 <= i < |rest| :: AheadOf(m, ks, d, rest[i], m[ks[r]].time, r);
        var w := [r] + rest;
        assert RankedWalk(m, ks, d, ct, cp, fuel) == w;
        forall i | 0 <= i < |rest| ensures AheadOf(m, ks, d, rest[i], ct, cp) {
          RankTransitive(d, m[ks[rest[i]]].time, rest[i], m[ks[r]].time, r, ct, cp);
        }
        forall i, j | 0 <= i < j < |w| ensures w[i] != w[j] {
          if i > 0 {
            assert w[i] == rest[i - 1] && w[j] == rest[j - 1];
          } else {
            assert w[j] == rest[j - 1];
            assert AheadOf(m, ks, d, rest[j - 1], m[ks[r]].time, r);
          }
        }
      }
    }
  }

  /** How many of the first n positions are ahead of (t, p). */
  function CountAhead(m: map<string, Message>, ks: seq<string>, d: Direction, t: Time, p: nat, n: nat): (c: nat)
    requires KeysIn(m, ks) && n <= |ks|
    ensures c <= n
  {
    if n == 0 then 0
    else CountAhead(m, ks, d, t, p, n - 1) + (if AheadOf(m, ks, d, n - 1, t, p) then 1 else 0)
  }

  /** Moving the cursor forward to a record ahead of it leaves strictly fewer
      records ahead. */
  lemma {:induction false} CountAheadShrinks(m: map<string, Message>, ks: seq<string>, d: Direction,
                                             t: Time, p: nat, r: nat, n: nat)
    requires KeysIn(m, ks) && n <= |ks| && r < |ks| && AheadOf(m, ks, d, r, t, p)
    ensures r < n ==> CountAhead(m, ks, d, m[ks[r]].time, r, n) < CountAhead(m, ks, d, t, p, n)
    ensures CountAhead(m, ks, d, m[ks[r]].time, r, n) <= CountAhead(m, ks, d, t, p, n)
  {
    if n > 0 {
      CountAheadShrinks(m, ks, d, t, p, r, n - 1);
      if AheadOf(m, ks, d, n - 1, m[ks[r]].time, r) {
        RankTransitive(d, m[ks[n - 1]].time, n - 1, m[ks[r]].time, r, t, p);
      }
    }
  }

  /** Walked from any cursor with enough calls, the intended walk visits
      every record ranked after the cursor. */
  lemma {:induction false} RankedWalkVisitsAll(m: map<string, Message>, ks: seq<string>, d: Direction, ct: Time, cp: nat, fuel: nat)
    requires KeysIn(m, ks) && fuel >= CountAhead(m, ks, d, ct, cp, |ks|)
    ensures forall j | 0 <= j < |ks| && AheadOf(m, ks, d, j, ct, cp) :: j in RankedWalk(m, ks, d, ct, cp, fuel)
    decreases fuel
  {
    match NearestByRank(m, ks, d, ct, cp)
    case None =>
    case Some(r) =>
      CountAheadShrinks(m, ks, d, ct, cp, r, |ks|);
      RankedWalkVisitsAll(m, ks, d, m[ks[r]].time, r, fuel - 1);
  }

  /** Ranked, the walk from "1" in the tied store goes on to "2" and then
      to "3". */
  lemma RankedWalkOnTiedTimes()
    ensures KeysIn(TiedStore(), TiedOrder())
    ensures RankedWalk(TiedStore(), TiedOrder(), Forward, At(100), 0, 3) == [1, 2]
  {
    var m, ks := TiedStore(), TiedOrder();
    assert NearestByRank(m, ks, Forward, At(100), 0) == Some(1) by {
      assert AheadOf(m, ks, Forward, 1, At(100), 0);
      assert AheadOf(m, ks, Forward, 2, At(100), 1);
    }
    assert NearestByRank(m, ks, Forward, At(100), 1) == Some(2) by {
      assert AheadOf(m, ks, Forward, 2, At(100), 1);
    }
    assert NearestByRank(m, ks, Forward, At(200), 2).None? by {
      assert forall j | 0 <= j < 3 :: !AheadOf(m, ks, Forward, j, At(200), 2);
    }
  }

  /** No two timed records share a time. */
  predicate DistinctTimes(m: map<string, Message>, ks: seq<string>)
    requires KeysIn(m, ks)
  {
    forall i, j | 0 <= i < |ks| && 0 <= j < |ks| && i != j && m[ks[i]].time.At? && m[ks[j]].time.At? ::
      m[ks[i]].time != m[ks[j]].time
  }

  /** Away from ties the correction changes nothing: with the cursor on the
      record at position cp and no two times equal, getNext/getPrev as
      written and the ranked pick choose the same record. */
  lemma RankAgreesWithoutTies(m: map<string, Message>, ks: seq<string>, d: Direction, cp: nat, curId: JsValue)
    requires KeysIn(m, ks) && NoDuplicates(ks) && cp < |ks|
    requires (curId.Num? || curId.Str?) && ToStr(curId) == ks[cp]
    requires DistinctTimes(m, ks)
    ensures NearestPos(m, ks, d, m[ks[cp]].time, curId) == NearestByRank(m, ks, d, m[ks[cp]].time, cp)
  {
    var ct := m[ks[cp]].time;
    forall j | 0 <= j < |ks|
      ensures Qualifies(m, ks, j, d, ct, curId) <==> AheadOf(m, ks, d, j, ct, cp)
    {
      LooseEqualsOwnKey(ks[j], curId);
    }
    var a := NearestPos(m, ks, d, ct, curId);
    var b := NearestByRank(m, ks, d, ct, cp);
    if a.Some? && b.Some? {
      forall j | 0 <= j < |ks| && j != b.value && AheadOf(m, ks, d, j, ct, cp)
        ensures Precedes(d, m[ks[b.value]].time, m[ks[j]].time)
      {
      }
    }
  }

  class MsgStore {
    /** `this.messages`, keyed by the string form of the message id. */
    var messages: map<string, Message>
    /** The order `for (index in this.messages)` visits the keys in. */
    var order: seq<string>
    // The cursor: the properties of the current message.
    var id: JsValue
    var message: JsValue
    var playerName: JsValue
    var playerId: JsValue
    var time: Time
    var read: JsValue
    /** Everything the store has published, oldest first. */
    ghost var published: seq<MsgEvent>

    ghost predicate Valid()
      reads this`messages, this`order
    {
      && (forall k :: k in messages <==> k in order)
      && NoDuplicates(order)
      && ForInOrdered(order)
    }

    /** The cursor fields read as one record. */
    ghost function Cursor(): Message
      reads this`id, this`message, this`playerName, this`playerId, this`time, this`read
    {
      Message(id, time, playerId, playerName, message, read)
    }

    /** The cursor fields start out null; a null time is falsy, as NoTime is. */
    constructor ()
      ensures Valid()
      ensures messages == map[] && order == [] && published == []
      ensures Cursor() == Message(Null, NoTime, Null, Null, Null, Null)
    {
      messages := map[];
      order := [];
      id, message, playerName, playerId, time, read := Null, Null, Null, Null, NoTime, Null;
      published := [];
    }

    method Exists(msgId: JsValue) returns (b: bool)
      ensures b <==> ToStr(msgId) in messages
    {
      b := false;
      if ToStr(msgId) in messages {
        b := true;
      }
    }

    /** Makes the message stored under msgId the current one. */
    method Get(msgId: JsValue) returns (found: bool)
      modifies this`id, this`message, this`playerName, this`playerId, this`time, this`read
      ensures found <==> ToStr(msgId) in messages
      ensures found ==> Cursor() == messages[ToStr(msgId)]
      ensures !found ==> Cursor() == old(Cursor())
    {
      found := Exists(msgId);
      if found {
        var m := messages[ToStr(msgId)];
        id, message, playerName, playerId, time, read := m.id, m.message, m.playerName, m.playerId, m.time, m.read;
      }
    }

    /** Stores `message` under msgId, replacing any earlier record whole. */
    method Set(msgId: JsValue, arg: Arg<Message>) returns (r: Completion)
      requires Valid()
      modifies this
      ensures Valid()
      ensures published == old(published) + [MsgAddPre(msgId, arg, old(messages))]
      ensures !Truthy(msgId) || arg.Missing? ==>
        && r == Returned(false)
        && messages == old(messages) && order == old(order) && Cursor() == old(Cursor())
      ensures Truthy(msgId) && arg.NullArg? ==>
        && r == Threw(TypeError)
        && messages == old(messages) && order == old(order) && Cursor() == old(Cursor())
      ensures Truthy(msgId) && arg.Object? ==>
        && r == Returned(true)
        && messages == old(messages)[ToStr(msgId) := arg.props]
        && order == InsertKey(old(order), ToStr(msgId))
        && Cursor() == arg.props
    {
      published := published + [MsgAddPre(msgId, arg, messages)];
      var success := false;
      if Truthy(msgId) && !arg.Missing? {
        if arg.NullArg? {
          return Threw(TypeError);
        }
        var key := ToStr(msgId);
        messages := messages[key := arg.props];
        order := InsertKey(order, key);
        success := true;
      }
      if success {
        var found := Get(msgId);
        r := Returned(found);
      } else {
        r := Returned(false);
      }
    }

    /** The cursor after `return (msg) ? this.get(msg.id) : false`, where msg
        is the record at position sel (None: no record was picked). */
    ghost predicate LandedOn(sel: Option<nat>, found: bool, before: Message)
      reads this`messages, this`order
      reads this`id, this`message, this`playerName, this`playerId, this`time, this`read
    {
      if sel.None? || sel.value >= |order| || order[sel.value] !in messages then
        !found && Cursor() == before
      else
        var k := ToStr(messages[order[sel.value]].id);
        && (found <==> k in messages)
        && (found ==> Cursor() == messages[k])
        && (!found ==> Cursor() == before)
    }

    method ScanExtreme(d: Direction) returns (found: bool)
      requires KeysIn(messages, order)
      modifies this`id, this`message, this`playerName, this`playerId, this`time, this`read
      ensures LandedOn(ExtremePos(messages, order, d), found, old(Cursor()))
    {
      var msg: Option<nat> := None;
      var i := 0;
      while i < |order|
        invariant 0 <= i <= |order|
        invariant msg == ExtremePos(messages, order[..i], d)
      {
        assert order[..i + 1][..i] == order[..i];
        var k := order[i];
        if msg.None? || Precedes(d, messages[k].time, messages[order[msg.value]].time) {
          msg := Some(i);
        }
        i := i + 1;
      }
      assert order[..i] == order;
      if msg.Some? {
        found := Get(messages[order[msg.value]].id);
      } else {
        found := false;
      }
    }

    /** getFirst: the record with the least time becomes current; false on an
        empty store. */
    method GetFirst() returns (found: bool)
      requires Valid()
      modifies this`id, this`message, this`playerName, this`playerId, this`time, this`read
      ensures LandedOn(ExtremePos(messages, order, Forward), found, old(Cursor()))
      ensures order == [] ==> !found && Cursor() == old(Cursor())
      ensures WellKeyed(messages) && order != [] ==>
        found && Cursor() == messages[order[ExtremePos(messages, order, Forward).value]]
    {
      found := ScanExtreme(Forward);
    }

    /** getLast: the record with the greatest time becomes current; false on
        an empty store. */
    method GetLast() returns (found: bool)
      requires Valid()
      modifies this`id, this`message, this`playerName, this`playerId, this`time, this`read
      ensures LandedOn(ExtremePos(messages, order, Backward), found, old(Cursor()))
      ensures order == [] ==> !found && Cursor() == old(Cursor())
      ensures WellKeyed(messages) && order != [] ==>
        found && Cursor() == messages[order[ExtremePos(messages, order, Backward).value]]
    {
      found := ScanExtreme(Backward);
    }

    method ScanNearest(d: Direction) returns (found: bool)
      requires KeysIn(messages, order)
      modifies this`id, this`message, this`playerName, this`playerId, this`time, this`read
      ensures !TimeTruthy(old(time)) ==> !found && Cursor() == old(Cursor())
      ensures TimeTruthy(old(time)) ==>
        LandedOn(NearestPos(messages, order, d, old(time), old(id)), found, old(Cursor()))
    {
      var msg: Option<nat> := None;
      if TimeTruthy(time) {
        var i := 0;
        while i < |order|
          invariant 0 <= i <= |order|
          invariant msg == NearestPos(messages, order[..i], d, time, id)
        {
          assert order[..i + 1][..i] == order[..i];
          var k := order[i];
          if PrecedesOrTies(d, time, messages[k].time) && !LooseEqualsKey(k, id)
            && (msg.None? || PrecedesOrTies(d, messages[k].time, messages[order[msg.value]].time))
          {
            msg := Some(i);
          }
          i := i + 1;
        }
        assert order[..i] == order;
      }
      if msg.Some? {
        found := Get(messages[order[msg.value]].id);
      } else {
        found := false;
      }
    }

    /** getNext: the nearest record at or after the cursor's time, other than
        the cursor's own key, becomes current; false without a cursor time. */
    method GetNext() returns (found: bool)
      requires Valid()
      modifies this`id, this`message, this`playerName, this`playerId, this`time, this`read
      ensures !TimeTruthy(old(time)) ==> !found && Cursor() == old(Cursor())
      ensures TimeTruthy(old(time)) ==>
        LandedOn(NearestPos(messages, order, Forward, old(time), old(id)), found, old(Cursor()))
      ensures !found ==> Cursor() == old(Cursor())
    {
      found := ScanNearest(Forward);
    }

    /** getPrev: the mirror image of getNext. */
    method GetPrev() returns (found: bool)
      requires Valid()
      modifies this`id, this`message, this`playerName, this`playerId, this`time, this`read
      ensures !TimeTruthy(old(time)) ==> !found && Cursor() == old(Cursor())
      ensures TimeTruthy(old(time)) ==>
        LandedOn(NearestPos(messages, order, Backward, old(time), old(id)), found, old(Cursor()))
      ensures !found ==> Cursor() == old(Cursor())
    {
      found := ScanNearest(Backward);
    }
  }
}
