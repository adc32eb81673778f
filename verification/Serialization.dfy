/** Response data and its conversion to the JSON value an idempotency record stores. */
module Serialization {
  import opened Wrappers

  /** Response data: JSON values, and the UUIDs, lazy strings and dated values
      that the conversion turns into text. */
  datatype Data =
    | Null | Bool(b: bool) | Number(digits: string) | Text(s: string)
    | List(items: seq<Data>) | Dict(entries: seq<(string, Data)>)
    | Uuid(text: string) | Lazy(text: string) | Dated(iso: string)

  /** No UUID, lazy string or dated value anywhere inside. */
  predicate Plain(d: Data) {
    match d
    case Uuid(_) => false
    case Lazy(_) => false
    case Dated(_) => false
    case List(items) => forall i | 0 <= i < |items| :: Plain(items[i])
    case Dict(entries) => forall i | 0 <= i < |entries| :: Plain(entries[i].1)
    case _ => true
  }

  function Serialize(d: Data): Data {
    match d
    case Uuid(text) => Text(text)
    case Lazy(text) => Text(text)
    case Dated(iso) => Text(iso)
    case List(items) => List(seq(|items|, i requires 0 <= i < |items| => Serialize(items[i])))
    case Dict(entries) => Dict(seq(|entries|, i requires 0 <= i < |entries| => (entries[i].0, Serialize(entries[i].1))))
    case _ => d
  }

  /** The stored body is plain JSON, and data that already is plain is stored
      unchanged; so serialising twice is serialising once. */
  lemma {:induction false} SerializeIsPlain(d: Data)
    ensures Plain(Serialize(d))
    ensures Plain(d) ==> Serialize(d) == d
    ensures Serialize(Serialize(d)) == Serialize(d)
  {
    match d
    case List(items) =>
      forall i | 0 <= i < |items| { SerializeIsPlain(items[i]); }
      assert Plain(d) ==> Serialize(d).items == items;
      assert Serialize(Serialize(d)).items == Serialize(d).items;
    case Dict(entries) =>
      forall i | 0 <= i < |entries| { SerializeIsPlain(entries[i].1); }
      assert Plain(d) ==> Serialize(d).entries == entries;
      assert Serialize(Serialize(d)).entries == Serialize(d).entries;
    case _ =>
  }

  /** What the conversion promises: text for UUIDs, lazy strings and dated
      values, the same structure and keys around them, everything else as it is. */
  predicate Renders(d: Data, e: Data) {
    match d
    case Uuid(text) => e.Text? && e.s == text
    case Lazy(text) => e.Text? && e.s == text
    case Dated(iso) => e.Text? && e.s == iso
    case List(items) =>
      e.List? && |e.items| == |items| && forall i | 0 <= i < |items| :: Renders(items[i], e.items[i])
    case Dict(entries) =>
      && e.Dict? && |e.entries| == |entries|
      && forall i | 0 <= i < |entries| :: e.entries[i].0 == entries[i].0 && Renders(entries[i].1, e.entries[i].1)
    case _ => e == d
  }

  /** The walk gives exactly the rendering. */
  lemma {:induction false} SerializeRenders(d: Data, e: Data)
    ensures Renders(d, e) <==> e == Serialize(d)
  {
    match d
    case List(items) =>
      if e.List? && |e.items| == |items| {
        forall i | 0 <= i < |items| { SerializeRenders(items[i], e.items[i]); }
        assert e == Serialize(d) <==> forall i | 0 <= i < |items| :: e.items[i] == Serialize(items[i]);
      }
    case Dict(entries) =>
      if e.Dict? && |e.entries| == |entries| {
        forall i | 0 <= i < |entries| { SerializeRenders(entries[i].1, e.entries[i].1); }
        assert e == Serialize(d) <==>
            forall i | 0 <= i < |entries| :: e.entries[i] == (entries[i].0, Serialize(entries[i].1));
      }
    case _ =>
  }

  /** What json.loads returns. */
  type Parsed = d: Data | Plain(d) witness Null

  /** A handler's response: data is None when walking it raises, rendered when
      its rendering is not JSON. */
  datatype Response = Response(status: int, data: Option<Data>, rendered: Option<Parsed>)

  datatype Stored = Stored(status: int, body: Data)

  const SERIALIZATION_ERROR := Dict([("_serialization_error", Bool(true))])

  /** What _complete_idempotency_key caches. */
  function StoredOf(r: Response): Stored {
    Stored(r.status,
           if r.data.Some? then Serialize(r.data.value)
           else if r.rendered.Some? then r.rendered.value
           else SERIALIZATION_ERROR)
  }

  /** Every stored body is plain JSON, the fallbacks included, beside the status
      of the response. Data that can be walked is stored as the walk renders it,
      plain data therefore as it is; other data as it was rendered to JSON, and
      as a marker of the error when it was not. */
  lemma StoredIsPlain(r: Response)
    ensures Plain(StoredOf(r).body) && StoredOf(r).status == r.status
    ensures r.data.Some? ==> Renders(r.data.value, StoredOf(r).body)
    ensures r.data.None? && r.rendered.None? ==>
              StoredOf(r).body == Dict([("_serialization_error", Bool(true))])
    ensures r.data.Some? && Plain(r.data.value) ==> StoredOf(r).body == r.data.value
    ensures r.data.None? && r.rendered.Some? ==> StoredOf(r).body == r.rendered.value
  {
    if r.data.Some? {
      SerializeIsPlain(r.data.value);
      SerializeRenders(r.data.value, Serialize(r.data.value));
    }
  }
}
