/** The cell record and the synchronous observer list of Eventi.js. */
module Events {
  import opened Errors

  /** One square of the board. */
  datatype Cell = Cell(hasMine: bool, isOpen: bool, hasFlag: bool, neighbors: int)

  /** The state of a freshly constructed cell: closed, mine-free, unflagged, no mined neighbours. */
  const NewCell := Cell(false, false, false, 0)

  /** A new cell holds no mine, is closed and unflagged, and counts no mined neighbour. */
  lemma NewCellIsBlank()
    ensures !NewCell.hasMine && !NewCell.isOpen && !NewCell.hasFlag && NewCell.neighbors == 0
  {
  }

  /** A listener is identified by its reference; distinct function objects get distinct ids,
      so a freshly bound handler never equals one bound earlier. */
  type ListenerId = nat

  /** Whatever a caller hands to attach: a function or some other value. */
  datatype Value = Function(id: ListenerId) | NonFunction

  /** An event channel: the subscribers in subscription order. The sender an event
      passes to its listeners is supplied to Notify. */
  datatype Channel = Channel(listeners: seq<ListenerId>)

  const EmptyChannel := Channel([])

  /** listenerCount: always the length of the subscriber list. */
  function ListenerCount(ch: Channel): (n: nat)
    ensures n == |ch.listeners|
  {
    |ch.listeners|
  }

  /** attach: a non-function is rejected; a function is appended at the end. */
  function Attach(ch: Channel, v: Value): (r: Result<Channel>)
    ensures r.Err? <==> v.NonFunction?
    ensures r.Err? ==> r.error == NotAFunction
    ensures r.Ok? ==> ListenerCount(r.value) == ListenerCount(ch) + 1
    ensures r.Ok? ==> r.value.listeners[..ListenerCount(ch)] == ch.listeners
    ensures r.Ok? ==> r.value.listeners[ListenerCount(ch)] == v.id
  {
    match v
    case NonFunction => Err(NotAFunction)
    case Function(id) => Ok(Channel(ch.listeners + [id]))
  }

  /** Array.prototype.indexOf: the first position holding x, or -1. */
  function IndexOf(s: seq<ListenerId>, x: ListenerId): (k: int)
    ensures -1 <= k < |s|
    ensures k == -1 <==> x !in s
    ensures 0 <= k ==> s[k] == x && x !in s[..k]
  {
    if |s| == 0 then -1
    else if s[0] == x then 0
    else
      var k := IndexOf(s[1..], x);
      assert k >= 0 ==> s[..k + 1] == [s[0]] + s[1..][..k];
      if k == -1 then -1 else k + 1
  }

  /** detach: removes the first occurrence of the listener, keeping the order of
      the others; a listener that is not subscribed leaves the channel as it is. */
  function Detach(ch: Channel, l: ListenerId): (r: Channel)
    ensures l !in ch.listeners ==> r == ch
    ensures l in ch.listeners ==>
      exists k :: 0 <= k < |ch.listeners| && ch.listeners[k] == l && l !in ch.listeners[..k]
        && r.listeners == ch.listeners[..k] + ch.listeners[k + 1..]
    ensures l in ch.listeners ==> ListenerCount(r) == ListenerCount(ch) - 1
  {
    var k := IndexOf(ch.listeners, l);
    if k > -1 then Channel(ch.listeners[..k] + ch.listeners[k + 1..]) else ch
  }

  /** clear: drops every subscription. */
  function Clear(ch: Channel): (r: Channel)
    ensures ListenerCount(r) == 0
  {
    EmptyChannel
  }

  /** One call of a listener during notify, and whether that call threw. */
  datatype Delivery<S, A> = Delivery(listener: ListenerId, sender: S, args: A, threw: bool)

  /** notify: every subscriber is called once, in subscription order, with the
      sender and the payload. `throws(k)` says whether the k-th call throws; a
      throwing call is caught and logged, so it neither stops the later calls nor
      reaches the caller (the result has no failure case). */
  function Notify<S, A>(ch: Channel, sender: S, args: A, throws: nat -> bool): (r: seq<Delivery<S, A>>)
    ensures |r| == ListenerCount(ch)
    ensures forall k :: 0 <= k < |r| ==> r[k] == Delivery(ch.listeners[k], sender, args, throws(k))
  {
    DeliverFrom(ch.listeners, 0, sender, args, throws)
  }

  function DeliverFrom<S, A>(ls: seq<ListenerId>, first: nat, sender: S, args: A, throws: nat -> bool)
    : (r: seq<Delivery<S, A>>)
    ensures |r| == |ls|
    ensures forall k :: 0 <= k < |r| ==> r[k] == Delivery(ls[k], sender, args, throws(first + k))
    decreases |ls|
  {
    if |ls| == 0 then []
    else [Delivery(ls[0], sender, args, throws(first))] + DeliverFrom(ls[1..], first + 1, sender, args, throws)
  }

  /** The listeners whose call threw, in delivery order: what notify logs. */
  function Logged<S, A>(ds: seq<Delivery<S, A>>): (r: seq<ListenerId>)
    ensures |r| <= |ds|
    ensures forall l :: l in r ==> exists k :: 0 <= k < |ds| && ds[k].threw && ds[k].listener == l
    ensures forall k :: 0 <= k < |ds| && ds[k].threw ==> ds[k].listener in r
    ensures (forall k :: 0 <= k < |ds| ==> !ds[k].threw) ==> r == []
    ensures (forall k :: 0 <= k < |ds| ==> ds[k].threw) ==>
      |r| == |ds| && forall k :: 0 <= k < |ds| ==> r[k] == ds[k].listener
  {
    if |ds| == 0 then []
    else (if ds[0].threw then [ds[0].listener] else []) + Logged(ds[1..])
  }

  /** The log grows one delivery at a time: the log of two runs of deliveries
      is the first run's log followed by the second's, and a single delivery
      is logged exactly when it threw. Hence one line per throwing call, in
      delivery order, repeats included. */
  lemma {:induction false} LoggedAppend<S, A>(a: seq<Delivery<S, A>>, b: seq<Delivery<S, A>>)
    ensures Logged(a + b) == Logged(a) + Logged(b)
    ensures |a| == 1 ==> Logged(a) == (if a[0].threw then [a[0].listener] else [])
    decreases |a|
  {
    if |a| > 0 {
      assert (a + b)[1..] == a[1..] + b;
      LoggedAppend(a[1..], b);
    } else {
      assert a + b == b;
    }
  }

  /** Failures are isolated: which calls throw changes only the outcome flags,
      never who is called, in what order, or with what. */
  lemma FailuresAreIsolated<S, A>(ch: Channel, sender: S, args: A, t1: nat -> bool, t2: nat -> bool)
    ensures |Notify(ch, sender, args, t1)| == |Notify(ch, sender, args, t2)|
    ensures forall k :: 0 <= k < ListenerCount(ch) ==>
      Notify(ch, sender, args, t1)[k].(threw := false) == Notify(ch, sender, args, t2)[k].(threw := false)
  {
  }

  /** Attaching a new listener and detaching it again restores the channel. */
  lemma DetachUndoesAttach(ch: Channel, l: ListenerId)
    requires l !in ch.listeners
    ensures Attach(ch, Function(l)).Ok?
    ensures Detach(Attach(ch, Function(l)).value, l) == ch
  {
    var s := ch.listeners + [l];
    assert s[|ch.listeners|] == l;
    assert l !in s[..|ch.listeners|] by { assert s[..|ch.listeners|] == ch.listeners; }
    assert IndexOf(s, l) == |ch.listeners|;
    assert s[..|ch.listeners|] + s[|ch.listeners| + 1..] == ch.listeners;
  }
}
