/** The management-protocol boundary. The SNMP transport (connect, GET, WALK)
    is not modelled; a host's agent is an oracle that says whether a session
    can be opened and what every GET and WALK returns. */
module Snmp {
  import opened Common
  import opened Text

  /** A variable's value: an OCTET STRING (Go `[]byte`), or a value of any
      other type, of which only its `fmt.Sprint` rendering is ever used. */
  datatype Value = OctetString(bytes: seq<byte>) | Other(rendered: string)

  /** One variable binding of a response: its OID name and its value. */
  datatype Pdu = Pdu(name: string, value: Value)

  /** How the agent of one host answers. `reachable` is the outcome of every
      `Connect` to it; `get(oids)` is the outcome of a GET of that OID list
      (the response's variable list or an error); `walk(root)` is the
      sequence of variables a WALK of that subtree hands to its callback, or
      the error the walk ends with. */
  datatype Agent = Agent(
    reachable: bool,
    get: seq<string> -> Result<seq<Pdu>>,
    walk: string -> Result<seq<Pdu>>)

  /** The agents of every address of the network, by the address string. */
  type Network = string -> Agent

  /** Go's `string(b)` for a byte slice: one character per byte. */
  function BytesToString(b: seq<byte>): (s: string)
    ensures |s| == |b| && forall i :: 0 <= i < |b| ==> s[i] as int == b[i]
  {
    seq(|b|, i requires 0 <= i < |b| => b[i] as char)
  }

  /** `fmt.Sprint` of a value: a byte slice renders as `[b0 b1 ...]`. */
  function Render(v: Value): string {
    match v
    case OctetString(b) => "[" + Join(Decimals(b), " ") + "]"
    case Other(s) => s
  }

  /** The value of the last variable called `name`, if any: what a loop over
      the variables with a `switch` on the name leaves in the matching field. */
  function LastValue(vars: seq<Pdu>, name: string): Option<Value> {
    if vars == [] then None
    else if vars[|vars| - 1].name == name then Some(vars[|vars| - 1].value)
    else LastValue(vars[..|vars| - 1], name)
  }

  /** `LastValue` finds nothing iff no variable has the name, and otherwise
      the value of a variable with that name after which none follows. */
  lemma {:induction false} LastValueSpec(vars: seq<Pdu>, name: string)
    ensures LastValue(vars, name).None? <==> forall i :: 0 <= i < |vars| ==> vars[i].name != name
    ensures LastValue(vars, name).Some? ==>
              exists i :: 0 <= i < |vars| && vars[i] == Pdu(name, LastValue(vars, name).value)
                          && forall j :: i < j < |vars| ==> vars[j].name != name
  {
    if vars != [] && vars[|vars| - 1].name != name {
      var pre := vars[..|vars| - 1];
      LastValueSpec(pre, name);
      if LastValue(pre, name).Some? {
        var i :| 0 <= i < |pre| && pre[i] == Pdu(name, LastValue(pre, name).value)
                 && forall j :: i < j < |pre| ==> pre[j].name != name;
        assert vars[i] == pre[i];
      }
    }
  }

  /** The rendering of the last value called `name`, or "" when there is none. */
  function LastRendered(vars: seq<Pdu>, name: string): string {
    match LastValue(vars, name)
    case None => ""
    case Some(v) => Render(v)
  }

  /** The last value called `name` read as a byte string, or "" when there is none. */
  function LastText(vars: seq<Pdu>, name: string): string {
    match LastValue(vars, name)
    case Some(OctetString(b)) => BytesToString(b)
    case _ => ""
  }

  /** Every variable called `name` holds a byte string. */
  predicate TextValued(vars: seq<Pdu>, name: string) {
    forall i :: 0 <= i < |vars| && vars[i].name == name ==> vars[i].value.OctetString?
  }
}
