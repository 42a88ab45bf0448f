/** What thread-local storage means: each thread owns a private array of bytes. */
module PrivateArrays {
  import opened Bytes

  type Arrays = map<nat, seq<byte>>

  datatype Call =
    | Create(size: uint32)
    | Destroy
    | Read(offset: uint32, length: uint32)
    | Write(offset: uint32, data: seq<byte>)
    | Clone(source: nat)

  datatype Answer = Answer(code: int, data: seq<byte>)

  const Refused := Answer(-1, [])
  const Done := Answer(0, [])

  /** The effect of a call by thread `self`. */
  function Effect(m: Arrays, self: nat, call: Call): (Arrays, Answer) {
    match call
    case Create(size) =>
      if size == 0 || self in m then (m, Refused) else (m[self := Zeros(size)], Done)
    case Destroy =>
      if self !in m then (m, Refused) else (m - {self}, Done)
    case Read(offset, length) =>
      if self !in m || offset + length > |m[self]| then (m, Refused)
      else (m, Answer(0, m[self][offset..offset + length]))
    case Write(offset, data) =>
      if self !in m || offset + |data| > |m[self]| then (m, Refused)
      else (m[self := Overlay(m[self], offset, data)], Done)
    case Clone(source) =>
      if source !in m || self in m then (m, Refused) else (m[self := m[source]], Done)
  }

  datatype Request = Request(self: nat, call: Call)

  function Run(m: Arrays, requests: seq<Request>): (Arrays, seq<Answer>)
    decreases |requests|
  {
    if requests == [] then (m, [])
    else
      var (mid, first) := Effect(m, requests[0].self, requests[0].call);
      var (end, rest) := Run(mid, requests[1..]);
      (end, [first] + rest)
  }

  /** Calls by other threads never change what a thread reads. */
  lemma {:induction false} OthersCannotInterfere(m: Arrays, requests: seq<Request>, t: nat)
    requires t in m && forall k :: 0 <= k < |requests| ==> requests[k].self != t
    ensures t in Run(m, requests).0 && Run(m, requests).0[t] == m[t]
    decreases |requests|
  {
    if requests != [] {
      var mid := Effect(m, requests[0].self, requests[0].call).0;
      assert t in mid && mid[t] == m[t];
      OthersCannotInterfere(mid, requests[1..], t);
    }
  }

  /** A clone is a full copy: whatever others do later, the source included, leaves the clone at
      the source's bytes, and whatever others do, the cloner included, leaves the source. */
  lemma CloneIsACopy(m: Arrays, self: nat, source: nat, later: seq<Request>)
    requires source in m && self !in m
    ensures var cloned := Effect(m, self, Clone(source)).0;
            ((forall k :: 0 <= k < |later| ==> later[k].self != self) ==>
               self in Run(cloned, later).0 && Run(cloned, later).0[self] == m[source]) &&
            ((forall k :: 0 <= k < |later| ==> later[k].self != source) ==>
               source in Run(cloned, later).0 && Run(cloned, later).0[source] == m[source])
  {
    var cloned := Effect(m, self, Clone(source)).0;
    if forall k :: 0 <= k < |later| ==> later[k].self != self { OthersCannotInterfere(cloned, later, self); }
    if forall k :: 0 <= k < |later| ==> later[k].self != source { OthersCannotInterfere(cloned, later, source); }
  }

  // ---------------------------------------------------------------- one call

  /** What a write leaves, byte by byte, in the caller's array. */
  lemma WriteLaw(m: Arrays, self: nat, o: uint32, data: seq<byte>)
    ensures var (r, answer) := Effect(m, self, Write(o, data));
            (answer.code == 0 <==> self in m && o + |data| <= |m[self]|) && answer.data == [] &&
            (answer.code == 0 ==>
               self in r && |r[self]| == |m[self]| &&
               forall j :: 0 <= j < |r[self]| ==>
                 r[self][j] == if o <= j < o + |data| then data[j - o] else m[self][j])
  {
  }

  /** What was written is read back from where it went. */
  lemma WriteThenRead(m: Arrays, self: nat, o: uint32, data: seq<byte>, n: uint32)
    requires Effect(m, self, Write(o, data)).1.code == 0 && n == |data|
    ensures Effect(Effect(m, self, Write(o, data)).0, self, Read(o, n)).1 == Answer(0, data)
  {
    WriteLaw(m, self, o, data);
    var r := Effect(m, self, Write(o, data)).0;
    assert r[self][o..o + n] == data;
  }

  /** Creating fails for size 0 and for a thread that has an array; destroying undoes it. */
  lemma CreateThenDestroy(m: Arrays, self: nat, size: uint32)
    ensures var (r, answer) := Effect(m, self, Create(size));
            (answer.code == 0 <==> size > 0 && self !in m) &&
            (answer.code == 0 ==>
               self in r && |r[self]| == size && (forall j :: 0 <= j < size ==> r[self][j] == 0) &&
               Effect(r, self, Create(size)).1.code == -1 && Effect(r, self, Destroy) == (m, Done))
  {
    if size > 0 && self !in m {
      assert m[self := Zeros(size)] - {self} == m;
    }
  }

  /** After a destroy the thread has no array: every call but create and clone is refused. */
  lemma DestroyLaw(m: Arrays, self: nat, call: Call)
    requires call.Destroy? || call.Read? || call.Write?
    ensures var (r, answer) := Effect(m, self, Destroy);
            (answer.code == 0 <==> self in m) && self !in r && Effect(r, self, call) == (r, Refused)
  {
  }

  /** A call that is refused changes nothing, and no call changes the arrays of others. */
  lemma RefusalsAndOthers(m: Arrays, self: nat, call: Call, u: nat)
    ensures var (r, answer) := Effect(m, self, call);
            (answer.code != 0 ==> r == m && answer.data == []) &&
            (u != self ==> (u in r <==> u in m) && (u in m ==> r[u] == m[u]))
  {
  }

  // ---------------------------------------------------------------- whole histories

  /** A call as it was answered. */
  datatype Event = Event(self: nat, call: Call, answer: Answer)

  /** The thread has storage: its last accepted create or clone was not followed by a destroy. */
  function Has(h: seq<Event>, t: nat): bool {
    if h == [] then false
    else
      var e := h[|h| - 1];
      if e.self == t && e.answer.code == 0 && (e.call.Create? || e.call.Clone?) then true
      else if e.self == t && e.answer.code == 0 && e.call.Destroy? then false
      else Has(h[..|h| - 1], t)
  }

  /** The size that was asked for at the last accepted create, the source's for a clone. */
  function Size(h: seq<Event>, t: nat): nat {
    if h == [] then 0
    else
      var e, front := h[|h| - 1], h[..|h| - 1];
      if e.self != t || e.answer.code != 0 then Size(front, t)
      else
        match e.call
        case Create(size) => size
        case Clone(source) => Size(front, source)
        case _ => Size(front, t)
  }

  /** The byte that an accepted write put last at position j since the last create, 0 if there is
      none; at a clone the history of the source up to then goes on. */
  function LastWritten(h: seq<Event>, t: nat, j: nat): byte {
    if h == [] then 0
    else
      var e, front := h[|h| - 1], h[..|h| - 1];
      if e.self != t || e.answer.code != 0 then LastWritten(front, t, j)
      else
        match e.call
        case Create(_) => 0
        case Clone(source) => LastWritten(front, source, j)
        case Write(o, data) => if o <= j < o + |data| then data[j - o] else LastWritten(front, t, j)
        case _ => LastWritten(front, t, j)
  }

  /** The arrays are what the history says. */
  ghost predicate Remembers(m: Arrays, h: seq<Event>) {
    (forall t :: t in m <==> Has(h, t)) &&
    forall t :: t in m ==> |m[t]| == Size(h, t) && forall j :: 0 <= j < |m[t]| ==> m[t][j] == LastWritten(h, t, j)
  }

  /** The answer that the history before the call asks for. */
  ghost predicate AnsweredAs(h: seq<Event>, self: nat, call: Call, answer: Answer) {
    match call
    case Create(size) => answer == if size > 0 && !Has(h, self) then Done else Refused
    case Destroy => answer == if Has(h, self) then Done else Refused
    case Clone(source) => answer == if Has(h, source) && !Has(h, self) then Done else Refused
    case Write(o, data) => answer == if Has(h, self) && o + |data| <= Size(h, self) then Done else Refused
    case Read(o, n) =>
      if Has(h, self) && o + n <= Size(h, self)
      then answer.code == 0 && |answer.data| == n &&
           forall j :: 0 <= j < n ==> answer.data[j] == LastWritten(h, self, o + j)
      else answer == Refused
  }

  lemma EventRemembered(m: Arrays, h: seq<Event>, self: nat, call: Call)
    requires Remembers(m, h)
    ensures var (r, answer) := Effect(m, self, call);
            AnsweredAs(h, self, call, answer) && Remembers(r, h + [Event(self, call, answer)])
  {
    var (r, answer) := Effect(m, self, call);
    var e := Event(self, call, answer);
    var after := h + [e];
    assert after[..|after| - 1] == h && after[|after| - 1] == e;
  }

  function History(requests: seq<Request>, answers: seq<Answer>): (h: seq<Event>)
    requires |requests| == |answers|
    ensures |h| == |requests|
  {
    seq(|requests|, k requires 0 <= k < |requests| => Event(requests[k].self, requests[k].call, answers[k]))
  }

  /** Read after write, over whole runs from the start: every answer is the one that the accepted
      calls before it ask for, so a read returns at each position what was written there last. */
  lemma {:induction false} AnswersFollowHistory(m: Arrays, h: seq<Event>, requests: seq<Request>)
    requires Remembers(m, h)
    ensures var (end, answers) := Run(m, requests);
            |answers| == |requests| && Remembers(end, h + History(requests, answers)) &&
            forall k :: 0 <= k < |requests| ==>
              AnsweredAs(h + History(requests, answers)[..k], requests[k].self, requests[k].call, answers[k])
    decreases |requests|
  {
    var (end, answers) := Run(m, requests);
    if requests == [] {
      assert h + History(requests, answers) == h;
    } else {
      var (mid, first) := Effect(m, requests[0].self, requests[0].call);
      var e := Event(requests[0].self, requests[0].call, first);
      EventRemembered(m, h, requests[0].self, requests[0].call);
      AnswersFollowHistory(mid, h + [e], requests[1..]);
      var rest := Run(mid, requests[1..]).1;
      var all := History(requests, answers);
      assert all == [e] + History(requests[1..], rest);
      assert h + all == h + [e] + History(requests[1..], rest);
      forall k | 0 <= k < |requests|
        ensures AnsweredAs(h + all[..k], requests[k].self, requests[k].call, answers[k])
      {
        if k == 0 {
          assert h + all[..0] == h;
        } else {
          assert h + all[..k] == h + [e] + History(requests[1..], rest)[..k - 1];
          assert requests[k] == requests[1..][k - 1] && answers[k] == rest[k - 1];
        }
      }
    }
  }

  lemma FromStart(requests: seq<Request>)
    ensures var answers := Run(map[], requests).1;
            |answers| == |requests| &&
            forall k :: 0 <= k < |requests| ==>
              AnsweredAs(History(requests, answers)[..k], requests[k].self, requests[k].call, answers[k])
  {
    AnswersFollowHistory(map[], [], requests);
    var all := History(requests, Run(map[], requests).1);
    forall k | 0 <= k < |requests| ensures [] + all[..k] == all[..k] {
    }
  }
}
