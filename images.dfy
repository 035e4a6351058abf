/** The URL collection of getMainImages: the resolved src of every img in
    document order, each kept once in a LinkedHashSet, stopping as soon as
    the set holds the requested number. */
module Images {
  import opened Wrappers
  import opened Dom
  import opened Metadata

  predicate NoRepeats(s: seq<string>)
  {
    forall i, j :: 0 <= i < j < |s| ==> s[i] != s[j]
  }

  /** base.resolve(src) for each img; getAttribute never returns null, so
      every img contributes, an absent src as "". */
  function Urls(t: Tree, imgs: seq<NodeId>, base: string, resolve: (string, string) -> string): (r: seq<string>)
    ensures |r| == |imgs|
    ensures forall i :: 0 <= i < |imgs| ==> r[i] == resolve(base, Attribute(t, imgs[i], "src"))
  {
    if imgs == [] then [] else [resolve(base, Attribute(t, imgs[0], "src"))] + Urls(t, imgs[1..], base, resolve)
  }

  /** LinkedHashSet.add: a new element goes last, a present one changes
      nothing. */
  function Add(acc: seq<string>, u: string): seq<string>
  {
    if u in acc then acc else acc + [u]
  }

  predicate Full(acc: seq<string>, number: Option<int>)
  {
    number.Some? && |acc| == number.value
  }

  /** The loop from the current set acc over the remaining urls us. */
  function Gather(us: seq<string>, acc: seq<string>, number: Option<int>): seq<string>
    decreases |us|
  {
    if us == [] then acc
    else
      var acc' := Add(acc, us[0]);
      if Full(acc', number) then acc' else Gather(us[1..], acc', number)
  }

  /** One round of the loop, seen from position i of us. */
  lemma GatherAt(us: seq<string>, i: nat, acc: seq<string>, number: Option<int>)
    requires i < |us|
    ensures var acc' := Add(acc, us[i]);
      Gather(us[i..], acc, number) == if Full(acc', number) then acc' else Gather(us[i + 1..], acc', number)
  {
    assert us[i..][0] == us[i] && us[i..][1..] == us[i + 1..];
  }

  /** The set never holds a URL twice. */
  lemma {:induction false} GatherNoRepeats(us: seq<string>, acc: seq<string>, number: Option<int>)
    requires NoRepeats(acc)
    ensures NoRepeats(Gather(us, acc, number))
    decreases |us|
  {
    if us != [] {
      var acc' := Add(acc, us[0]);
      assert NoRepeats(acc');
      if !Full(acc', number) { GatherNoRepeats(us[1..], acc', number); }
    }
  }

  /** Every URL of the result was already in the set or is one of us;
      nothing in the set is lost. */
  lemma {:induction false} GatherMembers(us: seq<string>, acc: seq<string>, number: Option<int>)
    ensures forall u :: u in Gather(us, acc, number) ==> u in acc || u in us
    ensures forall u :: u in acc ==> u in Gather(us, acc, number)
    ensures acc <= Gather(us, acc, number)
    decreases |us|
  {
    if us != [] {
      var acc' := Add(acc, us[0]);
      if !Full(acc', number) {
        GatherMembers(us[1..], acc', number);
        assert forall u :: u in us[1..] ==> u in us;
      }
    }
  }

  /** A limit that was not yet reached is never exceeded. */
  lemma {:induction false} GatherBound(us: seq<string>, acc: seq<string>, number: Option<int>)
    requires number.Some? && |acc| < number.value
    ensures |Gather(us, acc, number)| <= number.value
    decreases |us|
  {
    if us != [] {
      var acc' := Add(acc, us[0]);
      if !Full(acc', number) { GatherBound(us[1..], acc', number); }
    }
  }

  /** A result short of the limit (or without one) holds every URL. */
  lemma {:induction false} GatherComplete(us: seq<string>, acc: seq<string>, number: Option<int>)
    requires !Full(Gather(us, acc, number), number)
    ensures forall u :: u in us ==> u in Gather(us, acc, number)
    decreases |us|
  {
    if us != [] {
      var acc' := Add(acc, us[0]);
      if !Full(acc', number) {
        GatherComplete(us[1..], acc', number);
        GatherMembers(us[1..], acc', number);
        assert us == [us[0]] + us[1..];
      }
    }
  }
}
