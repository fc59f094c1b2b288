/** Grouping of the advertised calls by service name, as done by
    `Collectors.groupingBy(Call::getService)`, and the first-match lookup it yields. */
module Grouping {
  import opened Model

  /** Some call of the manifest is advertised under `name`. */
  predicate Advertises(calls: seq<Call>, name: string)
  {
    calls != [] && (calls[0].service == name || Advertises(calls[1..], name))
  }

  lemma {:induction false} AdvertisesIff(calls: seq<Call>, name: string)
    ensures Advertises(calls, name) <==> exists i :: 0 <= i < |calls| && calls[i].service == name
  {
    if calls != [] {
      AdvertisesIff(calls[1..], name);
      if exists i :: 0 <= i < |calls| && calls[i].service == name {
        var i :| 0 <= i < |calls| && calls[i].service == name;
        if i > 0 {
          assert calls[1..][i - 1].service == name;
        }
      }
    }
  }

  lemma {:induction false} AdvertisesAppend(a: seq<Call>, b: seq<Call>, name: string)
    ensures Advertises(a + b, name) <==> Advertises(a, name) || Advertises(b, name)
  {
    if a == [] {
      assert a + b == b;
    } else {
      assert (a + b)[0] == a[0];
      assert (a + b)[1..] == a[1..] + b;
      AdvertisesAppend(a[1..], b, name);
    }
  }

  /** The calls advertised under `name`, in manifest order. */
  function CallsFor(calls: seq<Call>, name: string): (r: seq<Call>)
    ensures r == [] <==> !Advertises(calls, name)
  {
    if calls == [] then []
    else (if calls[0].service == name then [calls[0]] else []) + CallsFor(calls[1..], name)
  }

  /** Every call in the group of `name` is advertised under `name`, and the group
      holds as many calls as the manifest has of that name. */
  lemma {:induction false} CallsForContents(calls: seq<Call>, name: string)
    ensures forall i :: 0 <= i < |CallsFor(calls, name)| ==> CallsFor(calls, name)[i].service == name
    ensures multiset(CallsFor(calls, name)) <= multiset(calls)
  {
    if calls != [] {
      CallsForContents(calls[1..], name);
      assert calls == [calls[0]] + calls[1..];
    }
  }

  /** The first call advertised under `name`, found by a left-to-right scan. */
  function FirstMatch(calls: seq<Call>, name: string): (r: Option<Call>)
    ensures r.None? <==> !Advertises(calls, name)
    ensures r.Some? ==> r.value.service == name
  {
    if calls == [] then None
    else if calls[0].service == name then Some(calls[0])
    else FirstMatch(calls[1..], name)
  }

  /** No call before position `i` is advertised under `name`. */
  predicate NoneBefore(calls: seq<Call>, name: string, i: int)
    requires i <= |calls|
  {
    forall j :: 0 <= j < i ==> calls[j].service != name
  }

  /** The first match is the call at the first position advertised under `name`. */
  lemma {:induction false} FirstMatchIsFirstIndex(calls: seq<Call>, name: string, i: nat)
    requires i < |calls| && calls[i].service == name && NoneBefore(calls, name, i)
    ensures FirstMatch(calls, name) == Some(calls[i])
  {
    if i > 0 {
      assert calls[0].service != name;
      assert NoneBefore(calls[1..], name, i - 1) by {
        forall j | 0 <= j < i - 1 ensures calls[1..][j].service != name {
          assert calls[1..][j] == calls[j + 1];
        }
      }
      FirstMatchIsFirstIndex(calls[1..], name, i - 1);
    }
  }

  lemma {:induction false} CallsForSnocAt(s: seq<Call>, x: Call, name: string)
    ensures CallsFor(s + [x], name) == CallsFor(s, name) + (if x.service == name then [x] else [])
  {
    var tail := if x.service == name then [x] else [];
    if s == [] {
      assert s + [x] == [x];
    } else {
      var head := if s[0].service == name then [s[0]] else [];
      assert (s + [x])[0] == s[0];
      assert (s + [x])[1..] == s[1..] + [x];
      CallsForSnocAt(s[1..], x, name);
      assert CallsFor(s + [x], name) == head + (CallsFor(s[1..], name) + tail);
      assert head + (CallsFor(s[1..], name) + tail) == (head + CallsFor(s[1..], name)) + tail;
    }
  }

  /** Appending one call to the group of its name (or opening a new group) groups
      the manifest extended by that call. */
  lemma GroupStep(init: seq<Call>, last: Call, g0: map<string, seq<Call>>)
    requires forall name :: name in g0 <==> Advertises(init, name)
    requires forall name :: name in g0 ==> g0[name] == CallsFor(init, name)
    ensures var g := g0[last.service := (if last.service in g0 then g0[last.service] else []) + [last]];
            && (forall name :: name in g <==> Advertises(init + [last], name))
            && forall name :: name in g ==> g[name] == CallsFor(init + [last], name)
  {
    var g := g0[last.service := (if last.service in g0 then g0[last.service] else []) + [last]];
    forall name
      ensures name in g <==> Advertises(init + [last], name)
      ensures name in g ==> g[name] == CallsFor(init + [last], name)
    {
      AdvertisesAppend(init, [last], name);
      CallsForSnocAt(init, last, name);
    }
  }

  /** `groupingBy`: folds the manifest left to right, appending each call to the
      list of its service name, so every list keeps manifest order. */
  function GroupByService(calls: seq<Call>): (g: map<string, seq<Call>>)
    ensures forall name :: name in g <==> Advertises(calls, name)
    ensures forall name :: name in g ==> g[name] == CallsFor(calls, name)
    decreases |calls|
  {
    if calls == [] then map[]
    else
      var init := calls[..|calls| - 1];
      var last := calls[|calls| - 1];
      var g0 := GroupByService(init);
      GroupStep(init, last, g0);
      assert calls == init + [last];
      g0[last.service := (if last.service in g0 then g0[last.service] else []) + [last]]
  }

  lemma {:induction false} CallsForHead(calls: seq<Call>, name: string)
    requires Advertises(calls, name)
    ensures FirstMatch(calls, name) == Some(CallsFor(calls, name)[0])
  {
    if calls[0].service != name {
      CallsForHead(calls[1..], name);
    }
  }

  /** The entry the evaluator consults for `name` — the head of its group — is the
      first call in the manifest advertised under `name`; the group is missing
      exactly when no call has that name. */
  lemma GroupHeadIsFirstMatch(calls: seq<Call>, name: string)
    ensures name in GroupByService(calls) <==> FirstMatch(calls, name).Some?
    ensures name in GroupByService(calls) ==>
              GroupByService(calls)[name] != [] && GroupByService(calls)[name][0] == FirstMatch(calls, name).value
  {
    if Advertises(calls, name) {
      CallsForHead(calls, name);
    }
  }

  /** Appending calls to the manifest does not change the first match of a name the
      manifest already advertises. */
  lemma {:induction false} FirstMatchAppend(calls: seq<Call>, extra: seq<Call>, name: string)
    requires Advertises(calls, name)
    ensures FirstMatch(calls + extra, name) == FirstMatch(calls, name)
  {
    assert (calls + extra)[0] == calls[0];
    if calls[0].service != name {
      assert (calls + extra)[1..] == calls[1..] + extra;
      FirstMatchAppend(calls[1..], extra, name);
    }
  }
}
