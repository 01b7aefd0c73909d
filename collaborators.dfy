/** The two sibling decoders a dialog field hands nested parameters to
    ("Target" and "Calculation"). Their internals are not part of this
    model; what the dialog field relies on is their contract: each one
    takes over the shared reader just inside a nested element's opening
    tag, consumes that element's whole sub-tree up to and including its own
    close tag (or up to the end of input), and then either fails or yields
    the optional display string of what it decoded. */
module Collaborators {
  import opened Xml

  datatype Result<+T> = Ok(value: T) | Failure

  /** What a collaborator makes of the element it consumed: the opening
      tag's attributes and the events of its sub-tree, close tag included,
      mapped to its rendered display string or to a parse failure. */
  type Decoder = (Attributes, seq<Event>) -> Result<Option<string>>

  /** Runs a collaborator on the reader: it walks its own sub-tree with the
      depth discipline and hands the consumed events to `decode`. */
  method Decode(r: Reader, attrs: Attributes, decode: Decoder) returns (res: Result<Option<string>>)
    requires r.Valid()
    modifies r
    ensures r.Valid()
    ensures r.pos == Walk(r.events, old(r.pos), 1).pos
    ensures res == decode(attrs, r.events[old(r.pos)..r.pos])
  {
    var depth := 1;
    var p0 := r.pos;
    while true
      invariant r.Valid() && p0 <= r.pos
      invariant Walk(r.events, p0, 1) == Walk(r.events, r.pos, depth)
      decreases |r.events| - r.pos
    {
      var e := r.Next();
      match e
      case Eof => break;
      case Start(_, _) => depth := depth + 1;
      case End(_) =>
        depth := depth - 1;
        if depth == 0 {
          break;
        }
      case _ =>
    }
    res := decode(attrs, r.events[p0..r.pos]);
  }
}
