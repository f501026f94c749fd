/**
 * The point-to-road-type resolver. For each search radius in turn it asks
 * the Overpass service for the ways tagged `highway` around the point and
 * takes the `highway` tag of the first returned element that carries one.
 *
 * The HTTP request and the JSON parser are outside the model: an `Overpass`
 * function stands for "send the query for this point and radius and parse
 * the body", and its `Response` keeps exactly the distinctions the resolver
 * reacts to.
 */
module Resolver {

  datatype Option<T> = None | Some(value: T)

  /** The value stored under an element's `highway` tag: a JSON string, or
      any other JSON value (number, object, null, ...). */
  datatype TagValue = Text(name: string) | NotText

  /** One entry of the `elements` array; `highway` is None when the element
      has no `tags` object or no `highway` key in it. */
  datatype Element = Element(highway: Option<TagValue>)

  /** What one request yields. `NoBody` is a transport failure or an empty
      body, `Unparsable` a body the JSON parser rejects, and a parsed
      `Document` holds its `elements` array (None when the key is missing
      or is not an array). */
  datatype Response =
    | NoBody
    | Unparsable
    | Document(elements: Option<seq<Element>>)

  /** The request for a point (latitude text, longitude text) and radius. */
  type Overpass = (string, string, int) -> Response

  /** Search radii, tightest first. */
  const Radii: seq<int> := [20, 50]

  /** Result when no radius yields a road type. */
  const NotFound := "NA"

  /** Index of the first element that carries a `highway` tag. */
  function FirstTagged(els: seq<Element>): (r: Option<nat>)
    ensures r.Some? ==>
      (r.value < |els| && els[r.value].highway.Some? &&
       forall j :: 0 <= j < r.value ==> els[j].highway.None?)
    ensures r.None? ==> forall j :: 0 <= j < |els| ==> els[j].highway.None?
  {
    if els == [] then None
    else if els[0].highway.Some? then Some(0)
    else match FirstTagged(els[1..])
      case None => None
      case Some(k) => Some(k + 1)
  }

  /** The first tagged element is characterised by its position: tagged,
      with only untagged elements before it. */
  lemma FirstTaggedAt(els: seq<Element>, k: nat)
    requires k < |els| && els[k].highway.Some?
    requires forall j :: 0 <= j < k ==> els[j].highway.None?
    ensures FirstTagged(els) == Some(k)
  {
  }

  /** The road type one response yields, if any. Reading a non-string tag
      throws, which abandons the whole radius: later elements are not
      looked at. */
  function RadiusTag(resp: Response): (r: Option<string>)
    ensures r.Some? ==> resp.Document? && resp.elements.Some?
    ensures r.Some? ==>
      exists k :: 0 <= k < |resp.elements.value| &&
        resp.elements.value[k].highway == Some(Text(r.value)) &&
        forall j :: 0 <= j < k ==> resp.elements.value[j].highway.None?
  {
    match resp
    case NoBody => None
    case Unparsable => None
    case Document(None) => None
    case Document(Some(els)) =>
      match FirstTagged(els)
      case None => None
      case Some(k) =>
        match els[k].highway.value
        case Text(name) => Some(name)
        case NotText => None
  }

  /** Trying the radii `rs` in order. */
  function ResolveWith(query: Overpass, lat: string, lon: string, rs: seq<int>): string
  {
    if rs == [] then NotFound
    else match RadiusTag(query(lat, lon, rs[0]))
      case Some(name) => name
      case None => ResolveWith(query, lat, lon, rs[1..])
  }

  /** The radii actually requested: up to and including the first one that
      yields a road type. */
  function QueriedWith(query: Overpass, lat: string, lon: string, rs: seq<int>): seq<int>
  {
    if rs == [] then []
    else if RadiusTag(query(lat, lon, rs[0])).Some? then [rs[0]]
    else [rs[0]] + QueriedWith(query, lat, lon, rs[1..])
  }

  function Resolve(query: Overpass, lat: string, lon: string): string
  {
    ResolveWith(query, lat, lon, Radii)
  }

  function Queried(query: Overpass, lat: string, lon: string): seq<int>
  {
    QueriedWith(query, lat, lon, Radii)
  }

  /** The resolver loop over radii and, within a radius, over elements.
      `queried` records the radius of every request made, in order. */
  method FindRoadType(query: Overpass, lat: string, lon: string)
    returns (roadType: string, queried: seq<int>)
    ensures roadType == Resolve(query, lat, lon)
    ensures queried == Queried(query, lat, lon)
  {
    queried := [];
    var n := 0;
    while n < |Radii|
      invariant 0 <= n <= |Radii|
      invariant queried == Radii[..n]
      invariant Resolve(query, lat, lon) == ResolveWith(query, lat, lon, Radii[n..])
      invariant Queried(query, lat, lon) == queried + QueriedWith(query, lat, lon, Radii[n..])
    {
      var radius := Radii[n];
      assert Radii[n..][1..] == Radii[n + 1..];
      assert Radii[..n + 1] == Radii[..n] + [radius];
      var resp := query(lat, lon, radius);
      queried := queried + [radius];
      n := n + 1;
      if resp.NoBody? {
        continue;
      }
      if resp.Unparsable? || resp.elements.None? {
        continue;
      }
      var els := resp.elements.value;
      var k := 0;
      while k < |els|
        invariant 0 <= k <= |els|
        invariant forall j :: 0 <= j < k ==> els[j].highway.None?
      {
        if els[k].highway.None? {
          k := k + 1;
          continue;
        }
        match els[k].highway.value {
          case Text(name) =>
            FirstTaggedAt(els, k);
            roadType := name;
            return;
          case NotText =>
            break;
        }
      }
    }
    roadType := NotFound;
  }

  /** The result is the road type of the first radius whose response yields
      one, and the sentinel when neither radius does. */
  lemma ResolveCases(query: Overpass, lat: string, lon: string)
    ensures var near := RadiusTag(query(lat, lon, 20));
      var far := RadiusTag(query(lat, lon, 50));
      Resolve(query, lat, lon) ==
        if near.Some? then near.value
        else if far.Some? then far.value
        else NotFound
    ensures var near := RadiusTag(query(lat, lon, 20));
      Queried(query, lat, lon) == if near.Some? then [20] else [20, 50]
  {
    var far := RadiusTag(query(lat, lon, 50));
    var rest: seq<int> := [50];
    assert Radii[1..] == rest && rest[0] == 50 && rest[1..] == [];
    assert ResolveWith(query, lat, lon, rest) == if far.Some? then far.value else NotFound;
    assert QueriedWith(query, lat, lon, rest) == [50];
  }

  /** A response yields `name` exactly when some element carries the string
      `name` under `highway` and every earlier element carries no `highway`
      tag at all. */
  lemma RadiusTagSpec(els: seq<Element>, name: string)
    ensures RadiusTag(Document(Some(els))) == Some(name) <==>
      exists k :: 0 <= k < |els| && els[k].highway == Some(Text(name)) &&
        forall j :: 0 <= j < k ==> els[j].highway.None?
  {
    if exists k :: 0 <= k < |els| && els[k].highway == Some(Text(name)) &&
        forall j :: 0 <= j < k ==> els[j].highway.None? {
      var k :| 0 <= k < |els| && els[k].highway == Some(Text(name)) &&
        forall j :: 0 <= j < k ==> els[j].highway.None?;
      FirstTaggedAt(els, k);
    }
  }

  /** Elements after the first tagged one are never consulted. */
  lemma LaterElementsIgnored(els: seq<Element>, more: seq<Element>)
    requires FirstTagged(els).Some?
    ensures RadiusTag(Document(Some(els + more))) == RadiusTag(Document(Some(els)))
  {
    var k := FirstTagged(els).value;
    assert (els + more)[k] == els[k];
    assert forall j :: 0 <= j < k ==> (els + more)[j] == els[j];
    FirstTaggedAt(els + more, k);
  }

  /** If the first tagged element holds a non-string value, the radius is
      abandoned even when a later element holds a string. */
  lemma NotTextAbandonsRadius(before: seq<Element>, after: seq<Element>)
    requires forall j :: 0 <= j < |before| ==> before[j].highway.None?
    ensures RadiusTag(Document(Some(before + [Element(Some(NotText))] + after))) == None
  {
    var els := before + [Element(Some(NotText))] + after;
    assert els[|before|] == Element(Some(NotText));
    assert forall j :: 0 <= j < |before| ==> els[j] == before[j];
    FirstTaggedAt(els, |before|);
  }

  /** Once the tight radius yields a road type, what the wide radius would
      return does not matter. */
  lemma FirstRadiusWins(q1: Overpass, q2: Overpass, lat: string, lon: string)
    requires q1(lat, lon, 20) == q2(lat, lon, 20)
    requires RadiusTag(q1(lat, lon, 20)).Some?
    ensures Resolve(q1, lat, lon) == Resolve(q2, lat, lon)
    ensures Queried(q1, lat, lon) == Queried(q2, lat, lon) == [20]
  {
    ResolveCases(q1, lat, lon);
    ResolveCases(q2, lat, lon);
  }

  /** A result other than the sentinel is the string tag of some element of
      the response for one of the radii; in particular an empty result can
      only come from an element whose `highway` value is the empty string. */
  lemma ResolveOrigin(query: Overpass, lat: string, lon: string)
    ensures var r := Resolve(query, lat, lon);
      r == NotFound ||
      exists radius, k :: radius in Radii &&
        query(lat, lon, radius).Document? && query(lat, lon, radius).elements.Some? &&
        0 <= k < |query(lat, lon, radius).elements.value| &&
        query(lat, lon, radius).elements.value[k].highway == Some(Text(r))
  {
    ResolveCases(query, lat, lon);
    var r := Resolve(query, lat, lon);
    if r != NotFound {
      var radius := if RadiusTag(query(lat, lon, 20)).Some? then 20 else 50;
      var resp := query(lat, lon, radius);
      assert RadiusTag(resp) == Some(r);
      var els := resp.elements.value;
      RadiusTagSpec(els, r);
      assert radius in Radii;
    }
  }
}
