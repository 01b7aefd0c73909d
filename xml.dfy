/** Markup events as the decoders pull them, the forward-only reader that
    hands them out, and the depth-counted sub-tree walk that every
    parameter decoder uses to consume exactly its own element. */
module Xml {

  datatype Option<+T> = None | Some(value: T)

  /** Attributes of an opening tag. A name that is missing (or whose value
      could not be decoded) is simply not a key. */
  type Attributes = map<string, string>

  /** One event of the markup stream. `CData` carries its already-decoded
      text; `Err` is a token the tokenizer could not decode. */
  datatype Event =
    | Start(name: string, attrs: Attributes)
    | End(name: string)
    | Empty(name: string, attrs: Attributes)
    | CData(text: string)
    | Text(text: string)
    | Comment(text: string)
    | Eof
    | Err

  function GetAttribute(attrs: Attributes, key: string): Option<string>
  {
    if key in attrs then Some(attrs[key]) else None
  }

  /** The event the reader yields at position `p`: past the end of the
      stream, or on an explicit `Eof`, it is `Eof`. */
  function Peek(es: seq<Event>, p: nat): Event
    requires p <= |es|
  {
    if p == |es| then Eof else es[p]
  }

  predicate AtEof(es: seq<Event>, p: nat)
    requires p <= |es|
  {
    Peek(es, p).Eof?
  }

  /** How an event moves the element depth. */
  function Delta(e: Event): int
  {
    match e
    case Start(_, _) => 1
    case End(_) => -1
    case _ => 0
  }

  /** Depth after the events `es[p..i]`, starting from `d0`, written as
      "`d0` plus opens minus closes". */
  function DepthAt(es: seq<Event>, p: nat, i: nat, d0: int): int
    requires p <= i <= |es|
    decreases i
  {
    if i == p then d0 else DepthAt(es, p, i - 1, d0) + Delta(es[i - 1])
  }

  /** `es[q - 1]` is the close tag matching an element whose opening tag
      was just before `es[p]`: the depth first returns to zero there, and
      no end of input comes before it. */
  ghost predicate MatchingClose(es: seq<Event>, p: nat, q: nat)
  {
    && p < q <= |es|
    && es[q - 1].End?
    && DepthAt(es, p, q, 1) == 0
    && (forall i :: p <= i < q ==> !es[i].Eof?)
    && (forall i :: p <= i < q ==> DepthAt(es, p, i, 1) > 0)
  }

  /** Where a depth walk stops, and whether it stopped on a close tag
      (`closed`) rather than at the end of input. */
  datatype Stop = Stop(pos: nat, closed: bool)

  /** The sub-tree walk: from position `p` with counter `depth`, count
      opens up and closes down, and stop just after the close tag that
      brings the counter to zero, or at the end of input. */
  function Walk(es: seq<Event>, p: nat, depth: int): (r: Stop)
    requires p <= |es|
    ensures p <= r.pos <= |es|
    ensures r.closed ==> p < r.pos && es[r.pos - 1].End?
    ensures !r.closed ==> AtEof(es, r.pos)
    decreases |es| - p
  {
    if p == |es| then Stop(p, false)
    else
      match es[p]
      case Eof => Stop(p, false)
      case Start(_, _) => Walk(es, p + 1, depth + 1)
      case End(_) => if depth - 1 == 0 then Stop(p + 1, true) else Walk(es, p + 1, depth - 1)
      case _ => Walk(es, p + 1, depth)
  }

  /** While the depth stays positive and no end of input is met, walking
      from `p` is the same as walking from any later `j` with the depth
      accumulated so far. */
  lemma {:induction false} WalkPrefix(es: seq<Event>, p: nat, j: nat)
    requires p <= j <= |es|
    requires forall i :: p <= i < j ==> !es[i].Eof?
    requires forall i :: p <= i <= j ==> DepthAt(es, p, i, 1) > 0
    ensures Walk(es, p, 1) == Walk(es, j, DepthAt(es, p, j, 1))
    decreases j - p
  {
    if j > p {
      WalkPrefix(es, p, j - 1);
      assert DepthAt(es, p, j, 1) == DepthAt(es, p, j - 1, 1) + Delta(es[j - 1]);
    }
  }

  lemma {:induction false} WalkClosesAtMatch(es: seq<Event>, p: nat, j: nat, q: nat)
    requires p <= j <= |es|
    requires forall i :: p <= i < j ==> !es[i].Eof?
    requires forall i :: p <= i <= j ==> DepthAt(es, p, i, 1) > 0
    requires Walk(es, j, DepthAt(es, p, j, 1)) == Stop(q, true)
    ensures MatchingClose(es, p, q)
    decreases |es| - j
  {
    var d := DepthAt(es, p, j, 1);
    assert DepthAt(es, p, j + 1, 1) == d + Delta(es[j]);
    if es[j].End? && d - 1 == 0 {
      assert q == j + 1;
    } else {
      WalkClosesAtMatch(es, p, j + 1, q);
    }
  }

  /** The walk started just inside an element stops with `closed` exactly
      at that element's matching close tag. */
  lemma WalkFindsMatchingClose(es: seq<Event>, p: nat, q: nat)
    requires p <= |es|
    ensures Walk(es, p, 1) == Stop(q, true) <==> MatchingClose(es, p, q)
  {
    if MatchingClose(es, p, q) {
      WalkPrefix(es, p, q - 1);
      assert DepthAt(es, p, q, 1) == DepthAt(es, p, q - 1, 1) + Delta(es[q - 1]);
    }
    if Walk(es, p, 1) == Stop(q, true) {
      WalkClosesAtMatch(es, p, p, q);
    }
  }

  /** Nesting: a walk at depth `k + d` first consumes what a walk at depth
      `k` consumes; if that one closed, it carries on from there at depth
      `d`; if it hit the end of input, so does the outer one. */
  lemma {:induction false} WalkNested(es: seq<Event>, p: nat, k: int, d: int)
    requires p <= |es|
    requires k >= 1 && d >= 1
    ensures var w := Walk(es, p, k);
      Walk(es, p, k + d) == if w.closed then Walk(es, w.pos, d) else w
    decreases |es| - p
  {
    if p < |es| {
      match es[p]
      case Eof =>
      case Start(_, _) => WalkNested(es, p + 1, k + 1, d);
      case End(_) => if k - 1 != 0 { WalkNested(es, p + 1, k - 1, d); }
      case _ => WalkNested(es, p + 1, k, d);
    }
  }

  /** The forward-only event cursor shared by a decoder and the decoders
      it delegates to. */
  class Reader {
    const events: seq<Event>
    var pos: nat

    predicate Valid()
      reads this
    {
      pos <= |events|
    }

    constructor (events: seq<Event>)
      ensures Valid()
      ensures this.events == events && pos == 0
    {
      this.events := events;
      pos := 0;
    }

    /** Pulls the next event. At the end of input it yields `Eof` and stays
        put, so every later pull yields `Eof` again. */
    method Next() returns (e: Event)
      requires Valid()
      modifies this
      ensures Valid()
      ensures e == Peek(events, old(pos))
      ensures pos == if e.Eof? then old(pos) else old(pos) + 1
    {
      if pos == |events| || events[pos].Eof? {
        e := Eof;
      } else {
        e := events[pos];
        pos := pos + 1;
      }
    }
  }
}
