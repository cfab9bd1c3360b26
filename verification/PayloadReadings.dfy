/** Payloads written member by member, with what both readings make of them. */
module PayloadReadings {
  import opened Wrappers
  import opened ServiceToken

  datatype Reading = Reading(d: Document, fields: Payload, exact: Payload)

  ghost predicate Reads(r: Reading) {
    Struct(r.d) == Some(r.fields) && Exact(r.d) == r.exact
  }

  const NOTHING := Reading([], map[], map[])

  /** One member more, whose name is read into the field of that key. */
  function With(r: Reading, name: string, key: string, v: Json): Reading {
    Reading(r.d + [(name, v)], r.fields[key := v], r.exact[name := v])
  }

  predicate Fits(key: string, v: Json) {
    (key in TEXT_CLAIMS && v.Text?) || (key in TIME_CLAIMS && v.Num?)
  }

  lemma TimesAreNoTexts()
    ensures forall key :: key in TIME_CLAIMS ==> key !in TEXT_CLAIMS
  {}

  lemma OneMore(r: Reading, name: string, key: string, v: Json)
    requires Reads(r) && FoldName(name) == key && Fits(key, v)
    ensures Reads(With(r, name, key, v))
  {
    assert (r.d + [(name, v)])[..|r.d|] == r.d;
    TimesAreNoTexts();
  }

  lemma OneMoreExact(d: Document, name: string, v: Json)
    ensures Exact(d + [(name, v)]) == Exact(d)[name := v]
  {
    assert (d + [(name, v)])[..|d|] == d;
  }
}
