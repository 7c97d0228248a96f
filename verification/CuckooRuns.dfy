/**
  Whole runs of a filter. A step is what the contracts of Add and Delete say of the
  contents; entry gives a key's tag and bucket pair, so different keys may share one.
 */
module CuckooRuns {

  datatype Event<Key> = Added(key: Key) | Refused(key: Key) | Deleted(key: Key, found: bool)

  ghost predicate Step<Key(!new), E(!new)>(entry: Key -> E, before: multiset<E>, event: Event<Key>,
      after: multiset<E>) {
    match event
    case Added(key) => after == before + multiset{entry(key)}
    case Refused(key) => after == before
    case Deleted(key, found) =>
      && (found <==> entry(key) in before)
      && (if found then after + multiset{entry(key)} == before else after == before)
  }

  /** The contents along a run that starts empty. */
  ghost predicate Run<Key(!new), E(!new)>(entry: Key -> E, events: seq<Event<Key>>, contents: seq<multiset<E>>) {
    && |contents| == |events| + 1 && contents[0] == multiset{}
    && forall n :: 0 <= n < |events| ==> Step(entry, contents[n], events[n], contents[n + 1])
  }

  lemma RunExtended<Key(!new), E(!new)>(entry: Key -> E, events: seq<Event<Key>>, contents: seq<multiset<E>>,
      event: Event<Key>, after: multiset<E>)
    requires Run(entry, events, contents) && Step(entry, contents[|events|], event, after)
    ensures Run(entry, events + [event], contents + [after])
  {
  }

  function Without<Key(==)>(keys: seq<Key>, key: Key): seq<Key> {
    if keys == [] then []
    else if keys[0] == key then keys[1..]
    else [keys[0]] + Without(keys[1..], key)
  }

  function LiveAfter<Key(==)>(keys: seq<Key>, event: Event<Key>): seq<Key> {
    match event
    case Added(key) => [key] + keys
    case Refused(_) => keys
    case Deleted(key, _) => Without(keys, key)
  }

  /** The keys accepted and not yet deleted, with repetitions. */
  function Live<Key(==)>(events: seq<Event<Key>>): seq<Key> {
    if events == [] then [] else LiveAfter(Live(events[..|events| - 1]), events[|events| - 1])
  }

  /** The caller deletes only keys that are live. */
  ghost predicate Disciplined<Key(!new)>(events: seq<Event<Key>>) {
    forall n :: 0 <= n < |events| && events[n].Deleted? ==> events[n].key in Live(events[..n])
  }

  ghost function Image<Key(!new), E>(entry: Key -> E, keys: seq<Key>): multiset<E> {
    if keys == [] then multiset{} else Image(entry, keys[1..]) + multiset{entry(keys[0])}
  }

  lemma {:induction false} ImageMember<Key(!new), E>(entry: Key -> E, keys: seq<Key>, key: Key)
    requires key in keys
    ensures entry(key) in Image(entry, keys)
  {
    if keys[0] != key {
      ImageMember(entry, keys[1..], key);
    }
  }

  lemma {:induction false} ImageWithout<Key(!new), E>(entry: Key -> E, keys: seq<Key>, key: Key)
    requires key in keys
    ensures Image(entry, Without(keys, key)) + multiset{entry(key)} == Image(entry, keys)
  {
    if keys[0] != key {
      ImageWithout(entry, keys[1..], key);
      assert Without(keys, key)[1..] == Without(keys[1..], key);
    }
  }

  lemma StepKeepsImage<Key(!new), E(!new)>(entry: Key -> E, keys: seq<Key>, event: Event<Key>, after: multiset<E>)
    requires Step(entry, Image(entry, keys), event, after)
    requires event.Deleted? ==> event.key in keys
    ensures after == Image(entry, LiveAfter(keys, event))
  {
    match event
    case Added(key) =>
      assert ([key] + keys)[1..] == keys;
    case Refused(_) =>
    case Deleted(key, _) =>
      ImageMember(entry, keys, key);
      ImageWithout(entry, keys, key);
      Cancel(after, Image(entry, Without(keys, key)), entry(key));
  }

  lemma Cancel<E(!new)>(a: multiset<E>, b: multiset<E>, e: E)
    requires a + multiset{e} == b + multiset{e}
    ensures a == b
  {
    forall x: E ensures a[x] == b[x] {
      assert (a + multiset{e})[x] == (b + multiset{e})[x];
    }
  }

  lemma PrefixRun<Key(!new), E(!new)>(entry: Key -> E, events: seq<Event<Key>>, contents: seq<multiset<E>>)
    requires Run(entry, events, contents) && Disciplined(events) && events != []
    ensures var n := |events| - 1;
      Run(entry, events[..n], contents[..n + 1]) && Disciplined(events[..n])
  {
    var n := |events| - 1;
    forall m | 0 <= m < n && events[..n][m].Deleted?
      ensures events[..n][m].key in Live(events[..n][..m])
    {
      assert events[..n][..m] == events[..m];
    }
  }

  /** In every disciplined run the filter holds exactly the images of the live keys. */
  lemma {:induction false} ContentsAreLive<Key(!new), E(!new)>(entry: Key -> E, events: seq<Event<Key>>,
      contents: seq<multiset<E>>)
    requires Run(entry, events, contents) && Disciplined(events)
    ensures contents[|events|] == Image(entry, Live(events))
    decreases |events|
  {
    if events != [] {
      var n := |events| - 1;
      PrefixRun(entry, events, contents);
      ContentsAreLive(entry, events[..n], contents[..n + 1]);
      StepKeepsImage(entry, Live(events[..n]), events[n], contents[n + 1]);
    }
  }

  /** No false negatives: what is live is found, and its deletion succeeds. */
  lemma NoFalseNegatives<Key(!new), E(!new)>(entry: Key -> E, events: seq<Event<Key>>, contents: seq<multiset<E>>,
      key: Key)
    requires Run(entry, events, contents) && Disciplined(events) && key in Live(events)
    ensures entry(key) in contents[|events|]
  {
    ContentsAreLive(entry, events, contents);
    ImageMember(entry, Live(events), key);
  }

  /** A positive answer means that some live key has the same bucket pair and tag. */
  lemma PositiveHasLiveKey<Key(!new), E(!new)>(entry: Key -> E, events: seq<Event<Key>>, contents: seq<multiset<E>>,
      e: E)
    requires Run(entry, events, contents) && Disciplined(events) && e in contents[|events|]
    ensures exists key :: key in Live(events) && entry(key) == e
  {
    ContentsAreLive(entry, events, contents);
    ImageSource(entry, Live(events), e);
  }

  lemma {:induction false} ImageSource<Key(!new), E>(entry: Key -> E, keys: seq<Key>, e: E)
    requires e in Image(entry, keys)
    ensures exists key :: key in keys && entry(key) == e
  {
    if entry(keys[0]) == e {
      assert keys[0] in keys;
    } else {
      ImageSource(entry, keys[1..], e);
    }
  }
}
