/**
 * Pod colour assignment (stern/tail.go:65-87).
 *
 * The package-level `podColors` map records, for every pod name seen by a
 * `Start`, the palette entry it was first given.  A palette entry is a pair
 * (highlight, shade); the map keeps the entry's index, the pod is painted
 * with the highlight and its container with the shade of the entry chosen
 * by the CURRENT size of the map, even for a pod that is already known.
 */
module Colors {

  /** The `fatih/color` foreground attributes the palette uses. */
  datatype Color =
    | FgHiCyan | FgCyan | FgHiGreen | FgGreen | FgHiMagenta | FgMagenta
    | FgHiYellow | FgYellow | FgHiBlue | FgBlue | FgHiRed | FgRed

  /** `colorList`: six (pod highlight, container shade) pairs. */
  const ColorList: seq<(Color, Color)> := [
    (FgHiCyan, FgCyan),
    (FgHiGreen, FgGreen),
    (FgHiMagenta, FgMagenta),
    (FgHiYellow, FgYellow),
    (FgHiBlue, FgBlue),
    (FgHiRed, FgRed)
  ]

  /** Every recorded palette index names an entry of `ColorList`. */
  ghost predicate InPalette(podColors: map<string, nat>) {
    forall p :: p in podColors ==> podColors[p] < |ColorList|
  }

  /** The map after the colour step of one `Start` for `pod`. */
  function Record(podColors: map<string, nat>, pod: string): map<string, nat> {
    if pod in podColors then podColors else podColors[pod := |podColors| % |ColorList|]
  }

  /** The map after one `Start` per name of `pods`, in order, beginning with `podColors`. */
  function Replay(podColors: map<string, nat>, pods: seq<string>): map<string, nat> {
    if pods == [] then podColors else Record(Replay(podColors, pods[..|pods| - 1]), pods[|pods| - 1])
  }

  /** The distinct names of `pods` in first-seen order. */
  function FirstSeen(pods: seq<string>): seq<string> {
    if pods == [] then []
    else
      var earlier := FirstSeen(pods[..|pods| - 1]);
      if pods[|pods| - 1] in earlier then earlier else earlier + [pods[|pods| - 1]]
  }

  class ColorRegistry {
    /** `podColors`: pod name to the index of the palette entry it was first given. */
    var podColors: map<string, nat>

    ghost predicate Valid()
      reads this
    {
      InPalette(podColors)
    }

    constructor ()
      ensures Valid() && podColors == map[]
    {
      podColors := map[];
    }

    /**
     * The colour step of `Start` (stern/tail.go:80-87): the index is taken
     * from the size of the map BEFORE any insertion; an unknown pod is
     * recorded under it, a known pod keeps its entry; the container shade
     * always comes from that fresh index.
     */
    method ColorsFor(pod: string) returns (podColor: Color, containerColor: Color)
      requires Valid()
      modifies this
      ensures Valid()
      ensures podColors == Record(old(podColors), pod)
      ensures pod in old(podColors) ==> podColor == ColorList[old(podColors)[pod]].0
      ensures pod !in old(podColors) ==> podColor == ColorList[|old(podColors)| % |ColorList|].0
      ensures containerColor == ColorList[|old(podColors)| % |ColorList|].1
    {
      var colorIndex := |podColors| % |ColorList|;
      var index: nat;
      if pod in podColors {
        index := podColors[pod];
      } else {
        index := colorIndex;
        podColors := podColors[pod := index];
      }
      podColor := ColorList[index].0;
      containerColor := ColorList[colorIndex].1;
    }
  }

  /**
   * One colour step adds exactly one entry for an unseen pod and none for
   * a known one, and leaves every other entry as it was.
   */
  lemma RecordFrame(podColors: map<string, nat>, pod: string)
    ensures Record(podColors, pod).Keys == podColors.Keys + {pod}
    ensures |Record(podColors, pod)| == if pod in podColors then |podColors| else |podColors| + 1
    ensures forall p :: p in podColors ==> Record(podColors, pod)[p] == podColors[p]
    ensures pod !in podColors ==> Record(podColors, pod)[pod] == |podColors| % |ColorList|
  {
    if pod !in podColors {
      assert Record(podColors, pod).Keys == podColors.Keys + {pod};
    }
  }

  /** Recorded indices always name a palette entry. */
  lemma {:induction false} ReplayInPalette(podColors: map<string, nat>, pods: seq<string>)
    requires InPalette(podColors)
    ensures InPalette(Replay(podColors, pods))
  {
    if pods != [] {
      ReplayInPalette(podColors, pods[..|pods| - 1]);
    }
  }

  /** Once a pod is in the map, no later `Start` changes its entry. */
  lemma {:induction false} KnownPodKeepsIndex(podColors: map<string, nat>, pods: seq<string>, pod: string)
    requires pod in podColors
    ensures pod in Replay(podColors, pods) && Replay(podColors, pods)[pod] == podColors[pod]
  {
    if pods != [] {
      KnownPodKeepsIndex(podColors, pods[..|pods| - 1], pod);
    }
  }

  /** `FirstSeen` lists each name of `pods` once, and no other name. */
  lemma {:induction false} FirstSeenDistinct(pods: seq<string>)
    ensures forall i, j :: 0 <= i < j < |FirstSeen(pods)| ==> FirstSeen(pods)[i] != FirstSeen(pods)[j]
    ensures forall p :: p in FirstSeen(pods) <==> p in pods
  {
    if pods != [] {
      var init := pods[..|pods| - 1];
      FirstSeenDistinct(init);
      assert pods == init + [pods[|pods| - 1]];
    }
  }

  /** Starting from an empty map, the map records exactly the pods seen. */
  lemma {:induction false} ReplayKeys(pods: seq<string>)
    ensures forall p :: p in Replay(map[], pods) <==> p in pods
  {
    if pods != [] {
      var init := pods[..|pods| - 1];
      ReplayKeys(init);
      assert pods == init + [pods[|pods| - 1]];
    }
  }

  /** Starting from an empty map, the map has one entry per distinct pod seen. */
  lemma {:induction false} ReplaySize(pods: seq<string>)
    ensures |Replay(map[], pods)| == |FirstSeen(pods)|
  {
    if pods != [] {
      var init := pods[..|pods| - 1];
      var pod := pods[|pods| - 1];
      ReplaySize(init);
      ReplayKeys(init);
      FirstSeenDistinct(init);
      RecordFrame(Replay(map[], init), pod);
    }
  }

  /**
   * Starting from an empty map, the k-th distinct pod (counting from 0, in
   * first-seen order) is recorded under palette index k mod 6.
   */
  lemma {:induction false} FirstSeenIndex(pods: seq<string>)
    ensures forall k :: 0 <= k < |FirstSeen(pods)| ==>
      FirstSeen(pods)[k] in Replay(map[], pods) && Replay(map[], pods)[FirstSeen(pods)[k]] == k % |ColorList|
  {
    if pods != [] {
      var init := pods[..|pods| - 1];
      var pod := pods[|pods| - 1];
      var m, seen := Replay(map[], init), FirstSeen(init);
      assert |ColorList| == 6;
      FirstSeenIndex(init);
      ReplayKeys(init);
      FirstSeenDistinct(init);
      if pod !in init {
        ReplaySize(init);
        assert Replay(map[], pods) == m[pod := |seen| % |ColorList|];
        assert FirstSeen(pods) == seen + [pod];
        forall k | 0 <= k < |seen|
          ensures FirstSeen(pods)[k] in Replay(map[], pods)
          ensures Replay(map[], pods)[FirstSeen(pods)[k]] == k % |ColorList|
        {
          assert FirstSeen(pods)[k] == seen[k] != pod;
        }
      }
    }
  }

  /** The palette wraps: the 7th distinct pod gets the 1st pod's entry. */
  lemma SeventhPodReusesFirst(pods: seq<string>)
    requires |FirstSeen(pods)| >= 7
    ensures FirstSeen(pods)[6] != FirstSeen(pods)[0]
    ensures FirstSeen(pods)[0] in Replay(map[], pods) && FirstSeen(pods)[6] in Replay(map[], pods)
    ensures Replay(map[], pods)[FirstSeen(pods)[6]] == Replay(map[], pods)[FirstSeen(pods)[0]] == 0
  {
    FirstSeenDistinct(pods);
    FirstSeenIndex(pods);
  }

  /**
   * A restarted pod keeps its highlight but not its shade: after "a" and
   * "b", a second `Start` of "a" paints the pod with entry 0's highlight
   * and its container with entry 2's shade.
   */
  lemma RestartTakesFreshShade()
    ensures var m := Replay(map[], ["a", "b"]);
      "a" in m && m["a"] < |ColorList| && ColorList[m["a"]].0 == FgHiCyan && ColorList[|m| % |ColorList|].1 == FgMagenta
  {
    assert ["a", "b"][..1] == ["a"];
    assert ["a"][..0] == [];
    var m := Replay(map[], ["a", "b"]);
    assert m == map["a" := 0, "b" := 1];
  }
}
