/** The "strict-greater scan" that both title selection (dvd.go) and disk
    selection (config.go) perform: walk the candidates in order, keeping the
    first one whose value exceeds the best seen so far, starting from 0. */
module Selection {
  import opened Wrappers

  /** The value the scan holds after a (possibly absent) pick. */
  function Best(xs: seq<nat>, pick: Option<nat>): nat
  {
    if pick.Some? && pick.value < |xs| then xs[pick.value] else 0
  }

  /** The index the scan ends on: none when every value is 0; otherwise the
      earliest index holding the maximum value. */
  function FirstMax(xs: seq<nat>): (r: Option<nat>)
    ensures r.None? <==> forall j :: 0 <= j < |xs| ==> xs[j] == 0
    ensures r.Some? ==> r.value < |xs| && xs[r.value] > 0
    ensures r.Some? ==> forall j :: 0 <= j < |xs| ==> xs[j] <= xs[r.value]
    ensures r.Some? ==> forall j :: 0 <= j < r.value ==> xs[j] < xs[r.value]
  {
    if |xs| == 0 then None
    else
      var init := xs[..|xs| - 1];
      var p := FirstMax(init);
      if xs[|xs| - 1] > Best(init, p) then Some(|xs| - 1) else p
  }
}
