/**
 * PSR-7 messages, reduced to their headers. Header names are
 * case-insensitive, so the map is keyed by the lower-cased name.
 */
module Http {
  import opened PhpStrings

  datatype Message = Message(headers: map<string, seq<string>>)

  function HasHeader(m: Message, name: string): bool {
    Lower(name) in m.headers
  }

  /** No value of the header holds a comma. */
  predicate CommaFree(values: seq<string>) {
    forall i, j | 0 <= i < |values| && 0 <= j < |values[i]| :: values[i][j] != ','
  }

  /** `getHeaderLine`: the values joined by commas, "" when absent. A single
      value is the line itself, and comma-free values are what splitting the
      line at its commas gives back. */
  function GetHeaderLine(m: Message, name: string): (r: string)
    ensures !HasHeader(m, name) ==> r == ""
    ensures HasHeader(m, name) && |m.headers[Lower(name)]| == 1 ==> r == m.headers[Lower(name)][0]
    ensures HasHeader(m, name) && |m.headers[Lower(name)]| >= 1 && CommaFree(m.headers[Lower(name)]) ==>
              Split(r, ',') == m.headers[Lower(name)]
  {
    if HasHeader(m, name) then
      var values := m.headers[Lower(name)];
      HeaderValuesBack(values);
      Join(",", values)
    else ""
  }

  lemma HeaderValuesBack(values: seq<string>)
    ensures |values| >= 1 && CommaFree(values) ==> Split(Join(",", values), ',') == values
  {
    if |values| >= 1 && CommaFree(values) {
      SplitJoin(values, ',');
    }
  }

  /** `withHeader`: replaces every value of the header. */
  function WithHeader(m: Message, name: string, value: string): (r: Message)
    ensures HasHeader(r, name) && r.headers[Lower(name)] == [value]
    ensures forall n | n != Lower(name) :: (n in r.headers <==> n in m.headers)
    ensures forall n | n != Lower(name) && n in m.headers :: r.headers[n] == m.headers[n]
  {
    Message(m.headers[Lower(name) := [value]])
  }

  /** `withAddedHeader`: appends one value to the header. */
  function WithAddedHeader(m: Message, name: string, value: string): (r: Message)
    ensures HasHeader(r, name)
    ensures r.headers[Lower(name)] == (if HasHeader(m, name) then m.headers[Lower(name)] else []) + [value]
    ensures forall n | n != Lower(name) :: (n in r.headers <==> n in m.headers)
    ensures forall n | n != Lower(name) && n in m.headers :: r.headers[n] == m.headers[n]
  {
    var old_values := if Lower(name) in m.headers then m.headers[Lower(name)] else [];
    Message(m.headers[Lower(name) := old_values + [value]])
  }
}
