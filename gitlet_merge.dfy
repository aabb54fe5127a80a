/** Gitlet's merge: the split point of two commits, found from their
    histories, the three-way classification of every file between the split
    point, the current head and the other branch, the checks merge makes
    before it starts, and its end on the staging index: the checkouts, the
    removals and the merge commit. */
module GitletMerge {
  import opened Common
  import opened GitletIndex

  /** The commits of a repository as far as merge needs them: each commit's
      hash mapped to its parent's hash, "" for the initial commit. */
  type Parents = map<string, string>

  /** Following parents from h reaches "" within n steps, through commits
      that are all in the repository. */
  ghost predicate Rooted(g: Parents, h: string, n: nat)
    decreases n
  {
    h == "" || (n > 0 && h in g && Rooted(g, g[h], n - 1))
  }

  /** The commits from h back to the initial one, h first. */
  function History(g: Parents, h: string, n: nat): (r: seq<string>)
    requires Rooted(g, h, n)
    decreases n
  {
    if h == "" then [] else [h] + History(g, g[h], n - 1)
  }

  /** The history does not depend on the bound it is computed with. */
  lemma {:induction false} HistoryFuel(g: Parents, h: string, n: nat, m: nat)
    requires Rooted(g, h, n) && Rooted(g, h, m)
    ensures History(g, h, n) == History(g, h, m)
    decreases n
  {
    if h != "" {
      HistoryFuel(g, g[h], n - 1, m - 1);
    }
  }

  /** getHistory lists start and then each commit's parent, stopping at the
      empty hash: every listed commit is in the repository, the first is
      start, each next one is the parent of the one before, and the last
      one's parent is "". */
  lemma {:induction false} HistoryLinks(g: Parents, h: string, n: nat)
    requires Rooted(g, h, n)
    ensures var s := History(g, h, n);
            && |s| <= n
            && (h == "" <==> s == [])
            && (forall i :: 0 <= i < |s| ==> s[i] != "" && s[i] in g)
            && (s != [] ==> s[0] == h && g[s[|s| - 1]] == "")
            && (forall i :: 0 <= i < |s| - 1 ==> s[i + 1] == g[s[i]])
    decreases n
  {
    if h != "" {
      HistoryLinks(g, g[h], n - 1);
    }
  }

  /** The history from the i'th commit of a history is the rest of it. */
  lemma {:induction false} HistorySuffix(g: Parents, h: string, n: nat, i: nat)
    requires Rooted(g, h, n) && i < |History(g, h, n)|
    ensures n >= i && Rooted(g, History(g, h, n)[i], n - i)
    ensures History(g, h, n)[i..] == History(g, History(g, h, n)[i], n - i)
    decreases i
  {
    if i > 0 {
      HistorySuffix(g, g[h], n - 1, i - 1);
      assert History(g, h, n)[i..] == History(g, g[h], n - 1)[i - 1..];
    }
  }

  /** Two commits with the same hash have the same history, so a history
      never lists a commit twice. */
  lemma HistoryDistinct(g: Parents, h: string, n: nat, i: nat, j: nat)
    requires Rooted(g, h, n) && i < j < |History(g, h, n)|
    ensures History(g, h, n)[i] != History(g, h, n)[j]
  {
    var s := History(g, h, n);
    if s[i] == s[j] {
      HistorySuffix(g, h, n, i);
      HistorySuffix(g, h, n, j);
      HistoryFuel(g, s[i], n - i, n - j);
    }
  }

  /** getHistory(repo, start, history), appending to an empty list. */
  method GetHistory(g: Parents, start: string, ghost n: nat) returns (history: seq<string>)
    requires Rooted(g, start, n)
    ensures history == History(g, start, n)
  {
    history := [];
    var cur := start;
    ghost var k := n;
    while cur != ""
      invariant Rooted(g, cur, k)
      invariant history + History(g, cur, k) == History(g, start, n)
      decreases k
    {
      history := history + [cur];
      cur := g[cur];
      k := k - 1;
    }
  }

  // ---------------------------------------------------------------------
  // The split point.

  /** The position of the first of xs that is also in ys, or |xs|. */
  function CommonAt(xs: seq<string>, ys: seq<string>): (i: nat)
    ensures i <= |xs| && (i < |xs| ==> xs[i] in ys)
    ensures forall j :: 0 <= j < i ==> xs[j] !in ys
  {
    if xs == [] then 0 else if xs[0] in ys then 0 else CommonAt(xs[1..], ys) + 1
  }

  /** List.retainAll on values: the elements of xs that are in ys, in
      order. */
  function Retain(xs: seq<string>, ys: seq<string>): (r: seq<string>)
    ensures forall x :: x in r <==> x in xs && x in ys
  {
    if xs == [] then [] else
      Retain(xs[..|xs| - 1], ys) + (if xs[|xs| - 1] in ys then [xs[|xs| - 1]] else [])
  }

  /** What retainAll keeps starts with the first common element. */
  lemma {:induction false} RetainFirst(xs: seq<string>, ys: seq<string>)
    ensures Retain(xs, ys) == [] <==> CommonAt(xs, ys) == |xs|
    ensures Retain(xs, ys) != [] ==> Retain(xs, ys)[0] == xs[CommonAt(xs, ys)]
  {
    if xs != [] {
      var ws, last := xs[..|xs| - 1], xs[|xs| - 1];
      RetainFirst(ws, ys);
      assert Retain(xs, ys) == Retain(ws, ys) + (if last in ys then [last] else []);
      var c := CommonAt(ws, ys);
      assert forall j :: 0 <= j < |ws| ==> xs[j] == ws[j];
      if c < |ws| {
        CommonAtUnique(xs, ys, c);
      } else {
        CommonAtUnique(xs, ys, if last in ys then |ws| else |xs|);
      }
    }
  }

  /** The first common position is the one before which no element is
      common. */
  lemma CommonAtUnique(xs: seq<string>, ys: seq<string>, i: nat)
    requires i <= |xs| && (i < |xs| ==> xs[i] in ys)
    requires forall j :: 0 <= j < i ==> xs[j] !in ys
    ensures CommonAt(xs, ys) == i
  {
    var c := CommonAt(xs, ys);
  }

  /** The split point of a and b: a itself when b is a, otherwise the first
      commit in a's history that is also in b's, or "" when there is none. */
  function SplitPoint(g: Parents, a: string, b: string, na: nat, nb: nat): (r: string)
    requires Rooted(g, a, na) && Rooted(g, b, nb)
  {
    if b == a then a
    else
      var A := History(g, a, na);
      var i := CommonAt(A, History(g, b, nb));
      if i < |A| then A[i] else ""
  }

  /** getSplitPoint(repo, a, b) */
  method GetSplitPoint(g: Parents, a: string, b: string, ghost na: nat, ghost nb: nat) returns (r: string)
    requires Rooted(g, a, na) && Rooted(g, b, nb)
    ensures r == SplitPoint(g, a, b, na, nb)
  {
    if b == a {
      return a;
    }
    var aHistory := GetHistory(g, a, na);
    var bHistory := GetHistory(g, b, nb);
    var retained := [];
    for i := 0 to |aHistory|
      invariant retained == Retain(aHistory[..i], bHistory)
    {
      assert aHistory[..i + 1][..i] == aHistory[..i];
      if aHistory[i] in bHistory {
        retained := retained + [aHistory[i]];
      }
    }
    assert aHistory[..|aHistory|] == aHistory;
    RetainFirst(aHistory, bHistory);
    if retained == [] {
      r := "";
    } else {
      r := retained[0];
    }
  }

  /** Two histories that meet go on together: a commit met in both is
      followed by as many commits in each. */
  ghost predicate Merging(A: seq<string>, B: seq<string>)
  {
    forall i, k :: 0 <= i < |A| && 0 <= k < |B| && A[i] == B[k] ==> |A| - i == |B| - k
  }

  /** A history lists no commit twice. */
  ghost predicate Distinct(A: seq<string>)
  {
    forall i, j :: 0 <= i < j < |A| ==> A[i] != A[j]
  }

  lemma HistoriesMerge(g: Parents, a: string, na: nat, b: string, nb: nat)
    requires Rooted(g, a, na) && Rooted(g, b, nb)
    ensures Merging(History(g, a, na), History(g, b, nb))
  {
    var A := History(g, a, na);
    var B := History(g, b, nb);
    forall i, k | 0 <= i < |A| && 0 <= k < |B| && A[i] == B[k]
      ensures |A| - i == |B| - k
    {
      SameTail(g, a, na, i, b, nb, k);
    }
  }

  lemma HistoryIsDistinct(g: Parents, h: string, n: nat)
    requires Rooted(g, h, n)
    ensures Distinct(History(g, h, n))
  {
    var A := History(g, h, n);
    forall i, j | 0 <= i < j < |A|
      ensures A[i] != A[j]
    {
      HistoryDistinct(g, h, n, i, j);
    }
  }

  /** The split point is a commit of both histories, and no commit of a's
      history before it is in b's; it is "" exactly when the histories have
      no commit in common. */
  lemma SplitPointCommon(g: Parents, a: string, b: string, na: nat, nb: nat)
    requires Rooted(g, a, na) && Rooted(g, b, nb) && a != b
    ensures var r := SplitPoint(g, a, b, na, nb);
            var A := History(g, a, na);
            var B := History(g, b, nb);
            && (r == "" <==> forall x :: x in A ==> x !in B)
            && (r != "" ==> r in A && r in B && forall j :: 0 <= j < |A| && A[j] == r ==>
                  forall k :: 0 <= k < j ==> A[k] !in B)
  {
    HistoryLinks(g, a, na);
    HistoryIsDistinct(g, a, na);
    FirstCommon(History(g, a, na), History(g, b, nb));
  }

  /** On sequences: the first common element, when the elements are
      distinct and not "". */
  lemma FirstCommon(A: seq<string>, B: seq<string>)
    requires Distinct(A) && forall i :: 0 <= i < |A| ==> A[i] != ""
    ensures var i := CommonAt(A, B);
            var r := if i < |A| then A[i] else "";
            && (r == "" <==> forall x :: x in A ==> x !in B)
            && (r != "" ==> r in A && r in B && forall j :: 0 <= j < |A| && A[j] == r ==>
                  forall k :: 0 <= k < j ==> A[k] !in B)
  {
    var i := CommonAt(A, B);
    forall j | 0 <= j < |A| && i < |A| && A[j] == A[i]
      ensures j <= i
    {
    }
  }

  /** The split point does not depend on the order of the two commits. */
  lemma SplitPointSymmetric(g: Parents, a: string, b: string, na: nat, nb: nat)
    requires Rooted(g, a, na) && Rooted(g, b, nb)
    ensures SplitPoint(g, a, b, na, nb) == SplitPoint(g, b, a, nb, na)
  {
    if a != b {
      HistoriesMerge(g, a, na, b, nb);
      MeetSymmetric(History(g, a, na), History(g, b, nb));
    }
  }

  /** On sequences that merge: the first element of A in B is the first
      element of B in A. */
  lemma MeetSymmetric(A: seq<string>, B: seq<string>)
    requires Merging(A, B)
    ensures CommonAt(A, B) < |A| <==> CommonAt(B, A) < |B|
    ensures CommonAt(A, B) < |A| ==> A[CommonAt(A, B)] == B[CommonAt(B, A)]
  {
    var i := CommonAt(A, B);
    var j := CommonAt(B, A);
    if i < |A| {
      var k :| 0 <= k < |B| && B[k] == A[i];
      var l :| 0 <= l < |A| && A[l] == B[j];
      assert |A| - i == |B| - k && |A| - l == |B| - j;
    }
  }

  /** A commit met in two histories is followed by the same commits in
      both. */
  lemma SameTail(g: Parents, a: string, na: nat, i: nat, b: string, nb: nat, k: nat)
    requires Rooted(g, a, na) && Rooted(g, b, nb)
    requires i < |History(g, a, na)| && k < |History(g, b, nb)|
    requires History(g, a, na)[i] == History(g, b, nb)[k]
    ensures |History(g, a, na)| - i == |History(g, b, nb)| - k
  {
    var x := History(g, a, na)[i];
    HistorySuffix(g, a, na, i);
    HistorySuffix(g, b, nb, k);
    HistoryFuel(g, x, na - i, nb - k);
    assert |History(g, a, na)[i..]| == |History(g, b, nb)[k..]|;
  }

  /** The split point of a commit and one of its ancestors is the
      ancestor, and a split point equal to b means b is in a's history: the
      "ancestor" and "fast-forward" cases of merge. */
  lemma SplitPointAncestor(g: Parents, a: string, b: string, na: nat, nb: nat)
    requires Rooted(g, a, na) && Rooted(g, b, nb) && b != ""
    ensures SplitPoint(g, a, b, na, nb) == b <==> b in History(g, a, na)
  {
    HistoryLinks(g, a, na);
    HistoryLinks(g, b, nb);
    if a != b {
      var A := History(g, a, na);
      if b in A {
        var k :| 0 <= k < |A| && A[k] == b;
        HistorySuffix(g, a, na, k);
        HistoryFuel(g, b, na - k, nb);
        HistoryIsDistinct(g, a, na);
        TailMeet(A, k);
      }
    }
  }

  /** On sequences: in a sequence without repetitions, the first element
      that is also in one of its suffixes is where the suffix starts. */
  lemma TailMeet(A: seq<string>, k: nat)
    requires Distinct(A) && k < |A|
    ensures CommonAt(A, A[k..]) == k
  {
    var i := CommonAt(A, A[k..]);
    assert A[k] in A[k..];
    assert forall m :: 0 <= m < |A| - k ==> A[k..][m] == A[k + m];
  }

  // ---------------------------------------------------------------------
  // The three-way classification of mergeCompare.

  /** What merge does with one file: leave it as the head has it, check out
      the other branch's version, remove it, or report a conflict
      (toCheckout, toRemove and inConflict). */
  datatype Verdict = Keep | Take | Drop | Conflict

  /** The classification the two forEach loops of mergeCompare make, as
      written, from the file's hash at the split point, in the head and in
      the other branch (None for absent). */
  function ClassifyAsWritten(s: Option<string>, h: Option<string>, o: Option<string>): (v: Verdict)
    ensures v == Drop ==> o.None?
    ensures v == Take ==> o.Some?
  {
    match o
    case Some(oh) =>
      if s.None? then
        if h.None? then Take else if h.value != oh then Conflict else Keep
      else if h != Some(oh) then
        if h.None? then (if oh != s.value then Conflict else Keep)
        else if h.value == s.value then Take
        else if oh != h.value then Conflict
        else Keep
      else Keep
    case None =>
      if s.Some? && h.Some? then
        if h.value == s.value then Drop else Conflict
      else Keep
  }

  /** The classification with a file modified in the head and unchanged in
      the other branch left as the head has it: the third test of the
      changed-in-both case compares the other branch's hash with the split
      point's. */
  function Classify(s: Option<string>, h: Option<string>, o: Option<string>): (v: Verdict)
    ensures v == Drop ==> o.None?
    ensures v == Take ==> o.Some?
  {
    match o
    case Some(oh) =>
      if s.None? then
        if h.None? then Take else if h.value != oh then Conflict else Keep
      else if h != Some(oh) then
        if h.None? then (if oh != s.value then Conflict else Keep)
        else if h.value == s.value then Take
        else if oh != s.value then Conflict
        else Keep
      else Keep
    case None =>
      if s.Some? && h.Some? then
        if h.value == s.value then Drop else Conflict
      else Keep
  }

  /** The file a verdict leaves: the head's for Keep, the other branch's
      for Take, none for Drop. */
  function Outcome(v: Verdict, h: Option<string>, o: Option<string>): Option<string>
  {
    match v
    case Keep => h
    case Take => o
    case Drop => None
    case Conflict => h
  }

  /** Three-way merge: the side that changed since the split point wins,
      and a file both sides changed differently has no merged version. */
  function ThreeWay(s: Option<string>, h: Option<string>, o: Option<string>): Option<Option<string>>
  {
    if h == o then Some(h)
    else if h == s then Some(o)
    else if o == s then Some(h)
    else None
  }

  /** The corrected classification is three-way merge: it reports a
      conflict exactly when both sides changed the file differently, and
      otherwise leaves the file three-way merge gives. */
  lemma ClassifyIsThreeWay(s: Option<string>, h: Option<string>, o: Option<string>)
    ensures Classify(s, h, o) == Conflict <==> ThreeWay(s, h, o).None?
    ensures Classify(s, h, o) != Conflict ==> Some(Outcome(Classify(s, h, o), h, o)) == ThreeWay(s, h, o)
  {
  }

  /** The four cases stated for mergeCompare. */
  lemma ClassifyCases(s: Option<string>, h: Option<string>, o: Option<string>)
    ensures s.None? && h.None? && o.Some? ==> Classify(s, h, o) == Take
    ensures s.Some? && h == s && o.Some? && o != s ==> Classify(s, h, o) == Take
    ensures s.Some? && h == s && o.None? ==> Classify(s, h, o) == Drop
    ensures h != s && o != s && h != o ==> Classify(s, h, o) == Conflict
  {
  }

  /** The loops as written differ from three-way merge exactly on a file
      the head changed and the other branch left as at the split point:
      they call it a conflict. */
  lemma ClassifyAsWrittenDiffers(s: Option<string>, h: Option<string>, o: Option<string>)
    ensures ClassifyAsWritten(s, h, o) != Classify(s, h, o) <==>
            s.Some? && h.Some? && h != s && o == s
    ensures ClassifyAsWritten(Some("a"), Some("b"), Some("a")) == Conflict
    ensures ThreeWay(Some("a"), Some("b"), Some("a")) == Some(Some("b"))
  {
  }

  function Lookup(m: map<string, string>, f: string): Option<string>
  {
    if f in m then Some(m[f]) else None
  }

  /** The verdict the loops of mergeCompare give file f. */
  function VerdictOf(split: map<string, string>, head: map<string, string>, other: map<string, string>, f: string): (v: Verdict)
    ensures v == Take ==> f in other && (f !in head || head[f] != other[f])
    ensures v == Drop ==> f !in other && f in split && f in head && head[f] == split[f]
    ensures f !in split && f !in head && f in other ==> v == Take
    ensures f in split && f in head && f !in other && head[f] != split[f] ==> v == Conflict
  {
    ClassifyAsWritten(Lookup(split, f), Lookup(head, f), Lookup(other, f))
  }

  /** The files of keys, in order, with verdict v. */
  function Pick(keys: seq<string>, split: map<string, string>, head: map<string, string>,
                other: map<string, string>, v: Verdict): (r: seq<string>)
    ensures forall f :: f in r <==> f in keys && VerdictOf(split, head, other, f) == v
  {
    if keys == [] then [] else
      Pick(keys[..|keys| - 1], split, head, other, v)
        + (if VerdictOf(split, head, other, keys[|keys| - 1]) == v then [keys[|keys| - 1]] else [])
  }

  /** The files of keys, in order, with verdict v and absent in other. */
  function PickAbsent(keys: seq<string>, split: map<string, string>, head: map<string, string>,
                      other: map<string, string>, v: Verdict): (r: seq<string>)
    ensures forall f :: f in r <==> f in keys && f !in other && VerdictOf(split, head, other, f) == v
  {
    if keys == [] then [] else
      PickAbsent(keys[..|keys| - 1], split, head, other, v)
        + (if keys[|keys| - 1] !in other && VerdictOf(split, head, other, keys[|keys| - 1]) == v
           then [keys[|keys| - 1]] else [])
  }

  lemma PickStep(keys: seq<string>, i: nat, split: map<string, string>, head: map<string, string>,
                 other: map<string, string>, v: Verdict)
    requires i < |keys|
    ensures Pick(keys[..i + 1], split, head, other, v) == Pick(keys[..i], split, head, other, v)
              + (if VerdictOf(split, head, other, keys[i]) == v then [keys[i]] else [])
  {
    assert keys[..i + 1][..i] == keys[..i];
  }

  lemma PickAbsentStep(keys: seq<string>, i: nat, split: map<string, string>, head: map<string, string>,
                       other: map<string, string>, v: Verdict)
    requires i < |keys|
    ensures PickAbsent(keys[..i + 1], split, head, other, v) == PickAbsent(keys[..i], split, head, other, v)
              + (if keys[i] !in other && VerdictOf(split, head, other, keys[i]) == v then [keys[i]] else [])
  {
    assert keys[..i + 1][..i] == keys[..i];
  }

  /** An iteration order of a map's keys: each key once. */
  ghost predicate Enumerates(keys: seq<string>, m: map<string, string>)
  {
    (forall f :: f in keys <==> f in m) && forall i, j :: 0 <= i < j < |keys| ==> keys[i] != keys[j]
  }

  /** mergeCompare's three lists: the files of other in its iteration
      order, checked out or in conflict, then the files of head that other
      lacks, removed or in conflict. The HashMap iteration orders are
      parameters. */
  method MergeCompare(split: map<string, string>, head: map<string, string>, other: map<string, string>,
                      otherKeys: seq<string>, headKeys: seq<string>)
    returns (toCheckout: seq<string>, toRemove: seq<string>, inConflict: seq<string>)
    requires Enumerates(otherKeys, other) && Enumerates(headKeys, head)
    ensures toCheckout == Pick(otherKeys, split, head, other, Take)
    ensures toRemove == PickAbsent(headKeys, split, head, other, Drop)
    ensures inConflict == Pick(otherKeys, split, head, other, Conflict) + PickAbsent(headKeys, split, head, other, Conflict)
  {
    var fromOther, fromHead;
    toCheckout, fromOther := CompareOther(split, head, other, otherKeys);
    toRemove, fromHead := CompareHead(split, head, other, headKeys);
    inConflict := fromOther + fromHead;
  }

  /** The first forEach, over the files of other. */
  method CompareOther(split: map<string, string>, head: map<string, string>, other: map<string, string>,
                      otherKeys: seq<string>)
    returns (toCheckout: seq<string>, inConflict: seq<string>)
    requires forall f :: f in otherKeys ==> f in other
    ensures toCheckout == Pick(otherKeys, split, head, other, Take)
    ensures inConflict == Pick(otherKeys, split, head, other, Conflict)
  {
    toCheckout, inConflict := [], [];
    for i := 0 to |otherKeys|
      invariant toCheckout == Pick(otherKeys[..i], split, head, other, Take)
      invariant inConflict == Pick(otherKeys[..i], split, head, other, Conflict)
    {
      var file := otherKeys[i];
      PickStep(otherKeys, i, split, head, other, Take);
      PickStep(otherKeys, i, split, head, other, Conflict);
      var otherHash := other[file];
      var splitHash := Lookup(split, file);
      var headHash := Lookup(head, file);
      if splitHash.None? {
        if headHash.None? {
          toCheckout := toCheckout + [file];
        } else if headHash.value != otherHash {
          inConflict := inConflict + [file];
        }
      } else if headHash != Some(otherHash) {
        if headHash.None? {
          if otherHash != splitHash.value {
            inConflict := inConflict + [file];
          }
        } else if headHash.value == splitHash.value {
          toCheckout := toCheckout + [file];
        } else if otherHash != headHash.value {
          inConflict := inConflict + [file];
        }
      }
    }
    assert otherKeys[..|otherKeys|] == otherKeys;
  }

  /** The second forEach, over the files of head. */
  method CompareHead(split: map<string, string>, head: map<string, string>, other: map<string, string>,
                     headKeys: seq<string>)
    returns (toRemove: seq<string>, inConflict: seq<string>)
    requires forall f :: f in headKeys ==> f in head
    ensures toRemove == PickAbsent(headKeys, split, head, other, Drop)
    ensures inConflict == PickAbsent(headKeys, split, head, other, Conflict)
  {
    toRemove, inConflict := [], [];
    for i := 0 to |headKeys|
      invariant toRemove == PickAbsent(headKeys[..i], split, head, other, Drop)
      invariant inConflict == PickAbsent(headKeys[..i], split, head, other, Conflict)
    {
      var file := headKeys[i];
      PickAbsentStep(headKeys, i, split, head, other, Drop);
      PickAbsentStep(headKeys, i, split, head, other, Conflict);
      var headHash := head[file];
      var splitHash := Lookup(split, file);
      if splitHash.Some? && file !in other {
        if headHash == splitHash.value {
          toRemove := toRemove + [file];
        } else {
          inConflict := inConflict + [file];
        }
      }
    }
    assert headKeys[..|headKeys|] == headKeys;
  }

  /** Every file of the three commits lands in at most one of the lists,
      in the one its verdict names; a file with verdict Keep in none. */
  lemma MergeCompareSorts(split: map<string, string>, head: map<string, string>, other: map<string, string>,
                          otherKeys: seq<string>, headKeys: seq<string>, f: string)
    requires Enumerates(otherKeys, other) && Enumerates(headKeys, head)
    ensures var toCheckout := Pick(otherKeys, split, head, other, Take);
            var toRemove := PickAbsent(headKeys, split, head, other, Drop);
            var inConflict := Pick(otherKeys, split, head, other, Conflict) + PickAbsent(headKeys, split, head, other, Conflict);
            var v := VerdictOf(split, head, other, f);
            && (f in toCheckout <==> v == Take)
            && (f in toRemove <==> v == Drop)
            && (f in inConflict <==> v == Conflict)
  {
  }

  // ---------------------------------------------------------------------
  // The checks of merge.

  /** What merge goes on to do once its checks pass: fast-forward when the
      split point is the head. */
  datatype Start = Start(split: string, fastForward: bool)

  /** The checks merge(repo, branch) makes, as written, in order: nothing
      is staged, and the other branch's commit is not the split point. The
      first test of the source, `branch.equals(repo.getCurrentBranch())`,
      compares the branch's name with the current branch's reference
      object, never a string, so it never holds and is not a check here. */
  function MergeChecks(changed: bool, split: string, headHash: string, otherHash: string): (r: Result<Start>)
    ensures changed ==> r == Err("You have uncommitted changes.")
    ensures !changed && split == otherHash ==> r == Err("Given branch is an ancestor of the current branch.")
    ensures r.Ok? <==> !changed && split != otherHash
    ensures r.Ok? ==> r.value.split == split && r.value.fastForward == (split == headHash)
  {
    if changed then Err("You have uncommitted changes.")
    else if split == otherHash then Err("Given branch is an ancestor of the current branch.")
    else Ok(Start(split, split == headHash))
  }

  /** The checks as intended: a branch is first compared by name with the
      current one, and a self-merge is refused. */
  function MergeChecksIntended(current: string, branch: string, changed: bool,
                               split: string, headHash: string, otherHash: string): (r: Result<Start>)
    ensures branch == current ==> r == Err("Cannot merge a branch with itself.")
    ensures branch != current ==> r == MergeChecks(changed, split, headHash, otherHash)
    ensures r.Ok? ==> branch != current && !changed && split != otherHash
  {
    if branch == current then Err("Cannot merge a branch with itself.")
    else MergeChecks(changed, split, headHash, otherHash)
  }

  /** Merging the current branch with itself, as written: both names resolve
      to the head, whose split point with itself is the head, so merge
      reports uncommitted changes or an ancestor instead of the self-merge
      the intended checks report. */
  lemma SelfMergeIsAncestor(g: Parents, current: string, h: string, n: nat, changed: bool)
    requires Rooted(g, h, n)
    ensures MergeChecks(changed, SplitPoint(g, h, h, n, n), h, h)
            == Err(if changed then "You have uncommitted changes." else "Given branch is an ancestor of the current branch.")
    ensures MergeChecksIntended(current, current, changed, SplitPoint(g, h, h, n, n), h, h)
            == Err("Cannot merge a branch with itself.")
  {
  }

  /** merge refuses exactly when the other branch's commit is in the head's
      history, and fast-forwards exactly when the head is in the other's. */
  lemma MergeAncestry(g: Parents, headHash: string, otherHash: string, nh: nat, no: nat)
    requires Rooted(g, headHash, nh) && Rooted(g, otherHash, no)
    requires headHash != "" && otherHash != ""
    ensures var r := MergeChecks(false, SplitPoint(g, headHash, otherHash, nh, no), headHash, otherHash);
            && (r.Err? <==> otherHash in History(g, headHash, nh))
            && (r.Ok? ==> (r.value.fastForward <==> headHash in History(g, otherHash, no)))
  {
    SplitPointAncestor(g, headHash, otherHash, nh, no);
    SplitPointAncestor(g, otherHash, headHash, no, nh);
    SplitPointSymmetric(g, headHash, otherHash, nh, no);
  }

  // ---------------------------------------------------------------------
  // The end of merge: the index through mergeCheckout, mergeRemove and the
  // merge commit.

  const UntrackedInTheWay := "There is an untracked file in the way; delete it or add it first."

  /** mergeCheckout's staging, in list order: each file is checked out of
      the other commit with stage set, that is added at the other's hash. */
  function CheckoutAll(t: Tracking, other: map<string, string>, files: seq<string>): (r: Tracking)
    requires forall f :: f in files ==> f in other
    ensures forall f :: f in r.blobs <==> f in t.blobs || f in files
    ensures (forall f :: f in files ==> f in t.blobs && t.blobs[f] == other[f] && f !in t.removed) ==> r == t
    decreases |files|
  {
    if files == [] then t
    else CheckoutAll(Added(t, files[0], other[files[0]]), other, files[1..])
  }

  /** On an index with nothing staged for removal, the checkouts leave
      nothing staged for removal, each checked-out file tracked at the
      other's hash and every other file at its old hash. */
  lemma {:induction false} CheckoutAllTracks(t: Tracking, other: map<string, string>, files: seq<string>)
    requires forall f :: f in files ==> f in other
    ensures var r := CheckoutAll(t, other, files);
            t.removed == map[] ==>
            && r.removed == map[]
            && (forall f :: f in r.blobs ==> r.blobs[f] == if f in files then other[f] else t.blobs[f])
    decreases |files|
  {
    if files != [] {
      var t1 := Added(t, files[0], other[files[0]]);
      assert t.removed == map[] ==> t1.blobs == t.blobs[files[0] := other[files[0]]] && t1.removed == map[];
      assert forall f :: f in files <==> f == files[0] || f in files[1..];
      CheckoutAllTracks(t1, other, files[1..]);
    }
  }

  /** On an index with nothing staged for removal, the checkouts stage
      exactly the checked-out files that were untracked or tracked at
      another hash, beside those already staged. */
  lemma {:induction false} CheckoutAllStages(t: Tracking, other: map<string, string>, files: seq<string>)
    requires forall f :: f in files ==> f in other
    ensures var r := CheckoutAll(t, other, files);
            t.removed == map[] ==>
            forall f :: f in r.staged <==> f in t.staged || (f in files && (f !in t.blobs || t.blobs[f] != other[f]))
    decreases |files|
  {
    if files != [] && t.removed == map[] {
      var f0 := files[0];
      var t1 := Added(t, f0, other[f0]);
      assert t1.blobs == t.blobs[f0 := other[f0]] && t1.removed == map[];
      assert forall f :: f in t1.staged <==> f in t.staged || (f == f0 && (f0 !in t.blobs || t.blobs[f0] != other[f0]));
      assert forall f :: f in files <==> f == f0 || f in files[1..];
      CheckoutAllStages(t1, other, files[1..]);
    }
  }

  /** mergeRemove, in list order: each file is removed as `rm` removes it,
      staged for removal when the head has it; the first file the index does
      not track throws. */
  function RemoveAll(t: Tracking, head: map<string, string>, files: seq<string>): (r: Result<Tracking>)
    ensures r.Err? ==> r.msg == "No reason to remove the file."
    ensures r.Ok? ==> (forall f :: f in files ==> f in t.blobs) && r.value.blobs == t.blobs - (set f | f in files)
    decreases |files|
  {
    if files == [] then Ok(t)
    else match Removed(t, files[0], files[0] in head)
      case Err(m) => Err(m)
      case Ok(t1) =>
        assert forall f :: f in files ==> f == files[0] || f in files[1..];
        var r := RemoveAll(t1, head, files[1..]);
        assert r.Ok? ==> r.value.blobs == t.blobs - (set f | f in files);
        r
  }

  /** The removals succeed on every list of distinct tracked files. */
  lemma {:induction false} RemoveAllSucceeds(t: Tracking, head: map<string, string>, files: seq<string>)
    requires forall f :: f in files ==> f in t.blobs
    requires Distinct(files)
    ensures RemoveAll(t, head, files).Ok?
    decreases |files|
  {
    if files != [] {
      var f0 := files[0];
      var t1 := Removed(t, f0, f0 in head).value;
      assert t1.blobs == t.blobs - {f0};
      assert forall i :: 0 <= i < |files[1..]| ==> files[1..][i] == files[i + 1];
      assert forall f :: f in files[1..] ==> f in files && f != f0;
      RemoveAllSucceeds(t1, head, files[1..]);
    }
  }

  /** A success of the removals unstages exactly the removed files. */
  lemma {:induction false} RemoveAllUnstages(t: Tracking, head: map<string, string>, files: seq<string>)
    ensures var r := RemoveAll(t, head, files);
            r.Ok? ==> forall f :: f in r.value.staged <==> f in t.staged && f !in files
    decreases |files|
  {
    if files != [] && files[0] in t.blobs {
      var f0 := files[0];
      var t1 := Removed(t, f0, f0 in head).value;
      assert t1.staged == t.staged - {f0};
      RemoveAllUnstages(t1, head, files[1..]);
      assert RemoveAll(t, head, files) == RemoveAll(t1, head, files[1..]);
      assert forall f :: f in files <==> f == f0 || f in files[1..];
    }
  }

  /** A success of the removals stages for removal, at the hash they were
      tracked at, exactly the removed files the head has, beside those
      already staged for removal. */
  lemma {:induction false} RemoveAllRecords(t: Tracking, head: map<string, string>, files: seq<string>)
    ensures var r := RemoveAll(t, head, files);
            && (r.Ok? ==> forall f :: f in r.value.removed <==> f in t.removed || (f in files && f in head))
            && (r.Ok? ==> forall f :: f in r.value.removed ==>
                            r.value.removed[f] == if f in files && f in head then t.blobs[f] else t.removed[f])
    decreases |files|
  {
    if files != [] && files[0] in t.blobs {
      var f0 := files[0];
      var t1 := Removed(t, f0, f0 in head).value;
      assert t1.blobs == t.blobs - {f0};
      assert t1.removed == if f0 in head then t.removed[f0 := t.blobs[f0]] else t.removed;
      RemoveAllRecords(t1, head, files[1..]);
      var r := RemoveAll(t1, head, files[1..]);
      assert RemoveAll(t, head, files) == r;
      if r.Ok? {
        assert f0 !in files[1..];
        assert forall f :: f in files <==> f == f0 || f in files[1..];
      }
    }
  }

  /** merge after mergeCompare's lists are built, from the index t it starts
      with and the files present in the working directory: an untracked
      working file that a checkout would overwrite throws first; then the
      checkouts and removals change the index, a removal of an untracked
      file throwing; then a conflict throws "Encountered a merge conflict.";
      and otherwise the merge commit takes the index's files, which
      blobsFromStage refuses when nothing is staged. The result is the
      merge commit's files. */
  function MergeEnd(t: Tracking, inWorkingDir: set<string>, head: map<string, string>, other: map<string, string>,
                    toCheckout: seq<string>, toRemove: seq<string>, inConflict: seq<string>): (r: Result<map<string, string>>)
    requires forall f :: f in toCheckout ==> f in other
    ensures (exists f :: f in toCheckout && f in inWorkingDir && f !in t.blobs) ==> r == Err(UntrackedInTheWay)
    ensures r.Ok? ==> inConflict == [] && forall f :: f in toRemove ==> f in t.blobs || f in toCheckout
    ensures r.Ok? ==> forall f :: f in toRemove ==> f !in r.value
    ensures r.Ok? ==> forall f :: (f in t.blobs || f in toCheckout) && f !in toRemove ==> f in r.value
    ensures r.Ok? && t.removed == map[] ==> forall f :: f in r.value <==> (f in t.blobs || f in toCheckout) && f !in toRemove
    ensures r.Ok? && t.removed == map[] ==>
              forall f :: f in r.value ==> r.value[f] == if f in toCheckout then other[f] else t.blobs[f]
    ensures !Changed(t) && toCheckout == [] && toRemove == [] ==>
              r == Err(if inConflict == [] then "No changes added to the commit." else "Encountered a merge conflict.")
    ensures r.Err? ==> r.msg in {UntrackedInTheWay, "No reason to remove the file.",
                                 "Encountered a merge conflict.", "No changes added to the commit."}
  {
    if exists f :: f in toCheckout && f in inWorkingDir && f !in t.blobs then Err(UntrackedInTheWay)
    else
      var t0 := CheckoutAll(t, other, toCheckout);
      CheckoutAllTracks(t, other, toCheckout);
      match RemoveAll(t0, head, toRemove)
      case Err(m) => Err(m)
      case Ok(t1) =>
        if inConflict != [] then Err("Encountered a merge conflict.")
        else match FromStage(t1)
          case Err(m) => Err(m)
          case Ok(p) => Ok(p.1)
  }

  /** merge once its checks pass, as written: a fast-forward resets the
      index to the other commit's files and does not return, so the
      comparison and the end of merge follow either way. */
  function MergeAsWritten(start: Start, t: Tracking, inWorkingDir: set<string>, split: map<string, string>,
                          head: map<string, string>, other: map<string, string>,
                          otherKeys: seq<string>, headKeys: seq<string>): Result<map<string, string>>
    requires Enumerates(otherKeys, other) && Enumerates(headKeys, head)
  {
    var t0 := if start.fastForward then CheckedOutCommit(t, other) else t;
    MergeEnd(t0, inWorkingDir, head, other, Pick(otherKeys, split, head, other, Take),
             PickAbsent(headKeys, split, head, other, Drop),
             Pick(otherKeys, split, head, other, Conflict) + PickAbsent(headKeys, split, head, other, Conflict))
  }

  /** As written, a fast-forward does not end merge well: the split point is
      the old head, so nothing conflicts, every file to check out is already
      tracked at the other's hash after the reset, and every file to remove
      is one the other commit lacks. Merge so fails, after the branch has
      moved, on the first removal when the head has a file the other lacks,
      and otherwise on the commit, with nothing staged. */
  lemma FastForwardFails(splitHash: string, t: Tracking, inWorkingDir: set<string>, head: map<string, string>,
                         other: map<string, string>, otherKeys: seq<string>, headKeys: seq<string>)
    requires Enumerates(otherKeys, other) && Enumerates(headKeys, head)
    ensures MergeAsWritten(Start(splitHash, true), t, inWorkingDir, head, head, other, otherKeys, headKeys)
            == Err(if exists f :: f in head && f !in other then "No reason to remove the file."
                   else "No changes added to the commit.")
  {
    var t0 := CheckedOutCommit(t, other);
    var toRemove := PickAbsent(headKeys, head, head, other, Drop);
    var fromOther := Pick(otherKeys, head, head, other, Conflict);
    var fromHead := PickAbsent(headKeys, head, head, other, Conflict);
    FirstIn(fromOther);
    FirstIn(fromHead);
    assert fromOther + fromHead == [];
    EndAfterReset(t0, inWorkingDir, head, other, Pick(otherKeys, head, head, other, Take), toRemove);
    if exists f :: f in head && f !in other {
      var f :| f in head && f !in other;
      assert VerdictOf(head, head, other, f) == Drop;
      assert f in toRemove;
    } else {
      FirstIn(toRemove);
    }
  }

  /** The end of merge on an index just reset to the other commit's files,
      with nothing in conflict: checking out files tracked at the other's
      hash stages nothing, and removing an untracked file throws. */
  lemma EndAfterReset(t0: Tracking, inWorkingDir: set<string>, head: map<string, string>, other: map<string, string>,
                      toCheckout: seq<string>, toRemove: seq<string>)
    requires t0.blobs == other && t0.staged == map[] && t0.removed == map[]
    requires forall f :: f in toCheckout ==> f in other
    requires forall f :: f in toRemove ==> f !in other
    ensures MergeEnd(t0, inWorkingDir, head, other, toCheckout, toRemove, [])
            == Err(if toRemove != [] then "No reason to remove the file." else "No changes added to the commit.")
  {
    assert CheckoutAll(t0, other, toCheckout) == t0;
    FirstIn(toRemove);
  }

  /** A proof hint: a non-empty list has its first element, which gives the
      solver a witness that some file is in it. */
  lemma FirstIn(r: seq<string>)
    ensures r != [] ==> r[0] in r
  {
  }

  /** The files to remove, picked from distinct keys, are distinct. */
  lemma {:induction false} PickAbsentDistinct(keys: seq<string>, split: map<string, string>, head: map<string, string>,
                                              other: map<string, string>, v: Verdict)
    requires Distinct(keys)
    ensures Distinct(PickAbsent(keys, split, head, other, v))
  {
    if keys != [] {
      var pre := keys[..|keys| - 1];
      assert forall i :: 0 <= i < |pre| ==> pre[i] == keys[i];
      PickAbsentDistinct(pre, split, head, other, v);
      assert keys[|keys| - 1] !in pre;
    }
  }

  /** Off a fast-forward, on a clean index tracking the head, a merge
      commit holds each file as its verdict as written leaves it: the
      other branch's version for Take, none for Drop, the head's for Keep.
      With ClassifyAsWrittenDiffers, a committed merge is three-way merge
      except on a file changed in the head alone, which never commits. */
  lemma MergeCommitFollowsVerdicts(s: string, inWorkingDir: set<string>, split: map<string, string>,
                                   head: map<string, string>, other: map<string, string>,
                                   otherKeys: seq<string>, headKeys: seq<string>)
    requires Enumerates(otherKeys, other) && Enumerates(headKeys, head)
    ensures var r := MergeAsWritten(Start(s, false), Tracking(head, map[], map[]), inWorkingDir, split, head, other,
                                    otherKeys, headKeys);
            r.Ok? ==> forall f :: Lookup(r.value, f) == Outcome(VerdictOf(split, head, other, f), Lookup(head, f), Lookup(other, f))
  {
    forall f {
      MergeCompareSorts(split, head, other, otherKeys, headKeys, f);
    }
  }

  /** The end of merge on a clean index tracking the head commits when no
      file to check out is untracked in the working directory, nothing is
      in conflict, the files to remove are distinct files of the head that
      are not checked out, and some file is checked out at a new hash or
      removed. */
  lemma MergeEndCommits(head: map<string, string>, other: map<string, string>, inWorkingDir: set<string>,
                        toCheckout: seq<string>, toRemove: seq<string>, g: string)
    requires forall f :: f in toCheckout ==> f in other
    requires forall f :: f in toCheckout && f in inWorkingDir ==> f in head
    requires forall f :: f in toRemove ==> f in head && f !in toCheckout
    requires Distinct(toRemove)
    requires (g in toCheckout && (g !in head || head[g] != other[g])) || g in toRemove
    ensures MergeEnd(Tracking(head, map[], map[]), inWorkingDir, head, other, toCheckout, toRemove, []).Ok?
  {
    var t := Tracking(head, map[], map[]);
    var t0 := CheckoutAll(t, other, toCheckout);
    CheckoutAllStages(t, other, toCheckout);
    RemoveAllSucceeds(t0, head, toRemove);
    RemoveAllUnstages(t0, head, toRemove);
    RemoveAllRecords(t0, head, toRemove);
    var t1 := RemoveAll(t0, head, toRemove).value;
    if g in toRemove {
      assert g in t1.removed;
    } else {
      assert g in t1.staged;
    }
    ChangedIff(t1);
  }

  /** Off a fast-forward, on a clean index tracking the head, merge commits
      exactly when no file is in conflict, no file to take from the other
      branch is an untracked working file, and some file is taken or
      removed; otherwise nothing is staged and the commit is refused. */
  lemma MergeCommitsIff(s: string, inWorkingDir: set<string>, split: map<string, string>,
                        head: map<string, string>, other: map<string, string>,
                        otherKeys: seq<string>, headKeys: seq<string>)
    requires Enumerates(otherKeys, other) && Enumerates(headKeys, head)
    ensures MergeAsWritten(Start(s, false), Tracking(head, map[], map[]), inWorkingDir, split, head, other,
                           otherKeys, headKeys).Ok?
            <==> && (forall f :: VerdictOf(split, head, other, f) != Conflict)
                 && (forall f :: VerdictOf(split, head, other, f) == Take && f in inWorkingDir ==> f in head)
                 && (exists f :: VerdictOf(split, head, other, f) == Take || VerdictOf(split, head, other, f) == Drop)
  {
    if MergeAsWritten(Start(s, false), Tracking(head, map[], map[]), inWorkingDir, split, head, other, otherKeys, headKeys).Ok? {
      MergeCommitsOnly(s, inWorkingDir, split, head, other, otherKeys, headKeys);
    }
    if && (forall f :: VerdictOf(split, head, other, f) != Conflict)
       && (forall f :: VerdictOf(split, head, other, f) == Take && f in inWorkingDir ==> f in head)
       && (exists f :: VerdictOf(split, head, other, f) == Take || VerdictOf(split, head, other, f) == Drop)
    {
      var g :| VerdictOf(split, head, other, g) == Take || VerdictOf(split, head, other, g) == Drop;
      MergeCommitsWhen(s, inWorkingDir, split, head, other, otherKeys, headKeys, g);
    }
  }

  /** A merge commit means no conflict, no untracked file in the way of a
      file taken from the other branch, and some file taken or removed. */
  lemma MergeCommitsOnly(s: string, inWorkingDir: set<string>, split: map<string, string>,
                         head: map<string, string>, other: map<string, string>,
                         otherKeys: seq<string>, headKeys: seq<string>)
    requires Enumerates(otherKeys, other) && Enumerates(headKeys, head)
    requires MergeAsWritten(Start(s, false), Tracking(head, map[], map[]), inWorkingDir, split, head, other,
                            otherKeys, headKeys).Ok?
    ensures forall f :: VerdictOf(split, head, other, f) != Conflict
    ensures forall f :: VerdictOf(split, head, other, f) == Take && f in inWorkingDir ==> f in head
    ensures exists f :: VerdictOf(split, head, other, f) == Take || VerdictOf(split, head, other, f) == Drop
  {
    var toCheckout := Pick(otherKeys, split, head, other, Take);
    var toRemove := PickAbsent(headKeys, split, head, other, Drop);
    forall f ensures VerdictOf(split, head, other, f) != Conflict
      && (VerdictOf(split, head, other, f) == Take && f in inWorkingDir ==> f in head)
    {
      MergeCompareSorts(split, head, other, otherKeys, headKeys, f);
    }
    FirstIn(toCheckout);
    FirstIn(toRemove);
    if toCheckout != [] {
      MergeCompareSorts(split, head, other, otherKeys, headKeys, toCheckout[0]);
    } else if toRemove != [] {
      MergeCompareSorts(split, head, other, otherKeys, headKeys, toRemove[0]);
    }
  }

  /** No conflict, no untracked file in the way and a file g taken or
      removed make merge commit. */
  lemma MergeCommitsWhen(s: string, inWorkingDir: set<string>, split: map<string, string>,
                         head: map<string, string>, other: map<string, string>,
                         otherKeys: seq<string>, headKeys: seq<string>, g: string)
    requires Enumerates(otherKeys, other) && Enumerates(headKeys, head)
    requires forall f :: VerdictOf(split, head, other, f) != Conflict
    requires forall f :: VerdictOf(split, head, other, f) == Take && f in inWorkingDir ==> f in head
    requires VerdictOf(split, head, other, g) == Take || VerdictOf(split, head, other, g) == Drop
    ensures MergeAsWritten(Start(s, false), Tracking(head, map[], map[]), inWorkingDir, split, head, other,
                           otherKeys, headKeys).Ok?
  {
    var toCheckout := Pick(otherKeys, split, head, other, Take);
    var toRemove := PickAbsent(headKeys, split, head, other, Drop);
    var fromOther := Pick(otherKeys, split, head, other, Conflict);
    var fromHead := PickAbsent(headKeys, split, head, other, Conflict);
    FirstIn(fromOther);
    FirstIn(fromHead);
    assert fromOther + fromHead == [];
    MergeCompareSorts(split, head, other, otherKeys, headKeys, g);
    PickAbsentDistinct(headKeys, split, head, other, Drop);
    MergeEndCommits(head, other, inWorkingDir, toCheckout, toRemove, g);
  }

  /** A merge in which both branches hold the same files has nothing to
      check out, remove or resolve, whatever the split point, and off a
      fast-forward on a clean index it fails with nothing staged instead of
      committing. */
  lemma SameChangeFails(s: string, inWorkingDir: set<string>, split: map<string, string>,
                        head: map<string, string>, keys: seq<string>)
    requires Enumerates(keys, head)
    ensures MergeAsWritten(Start(s, false), Tracking(head, map[], map[]), inWorkingDir, split, head, head, keys, keys)
            == Err("No changes added to the commit.")
  {
    forall f ensures VerdictOf(split, head, head, f) == Keep {
    }
    var toCheckout, toRemove := Pick(keys, split, head, head, Take), PickAbsent(keys, split, head, head, Drop);
    var fromOther, fromHead := Pick(keys, split, head, head, Conflict), PickAbsent(keys, split, head, head, Conflict);
    FirstIn(toCheckout);
    FirstIn(toRemove);
    FirstIn(fromOther);
    FirstIn(fromHead);
    assert toCheckout == [] && toRemove == [] && fromOther + fromHead == [];
  }

  /** How merge ends: the branch fast-forwarded, a merge commit made with
      the given files, or an error reported. */
  datatype Finish = FastForwarded | Committed(blobs: map<string, string>) | Failed(msg: string)

  /** How merge ends with a return after the fast-forward: a fast-forward
      ends merge, and otherwise merge ends as the code as written does. */
  function MergeFinish(start: Start, t: Tracking, inWorkingDir: set<string>, split: map<string, string>,
                       head: map<string, string>, other: map<string, string>,
                       otherKeys: seq<string>, headKeys: seq<string>): (r: Finish)
    requires Enumerates(otherKeys, other) && Enumerates(headKeys, head)
    ensures r == FastForwarded <==> start.fastForward
    ensures !start.fastForward ==>
              match MergeAsWritten(start, t, inWorkingDir, split, head, other, otherKeys, headKeys)
              case Ok(blobs) => r == Committed(blobs)
              case Err(m) => r == Failed(m)
  {
    if start.fastForward then FastForwarded
    else
      match MergeEnd(t, inWorkingDir, head, other, Pick(otherKeys, split, head, other, Take),
                     PickAbsent(headKeys, split, head, other, Drop),
                     Pick(otherKeys, split, head, other, Conflict) + PickAbsent(headKeys, split, head, other, Conflict))
      case Ok(blobs) => Committed(blobs)
      case Err(m) => Failed(m)
  }

  /** With the return, once the checks pass merge ends by fast-forwarding,
      with no merge commit and no error, exactly when the head is in the
      other branch's history. */
  lemma MergeFinishAncestry(g: Parents, headHash: string, otherHash: string, nh: nat, no: nat,
                            t: Tracking, inWorkingDir: set<string>, split: map<string, string>,
                            head: map<string, string>, other: map<string, string>,
                            otherKeys: seq<string>, headKeys: seq<string>)
    requires Rooted(g, headHash, nh) && Rooted(g, otherHash, no)
    requires headHash != "" && otherHash != ""
    requires otherHash !in History(g, headHash, nh)
    requires Enumerates(otherKeys, other) && Enumerates(headKeys, head)
    ensures var r := MergeChecks(false, SplitPoint(g, headHash, otherHash, nh, no), headHash, otherHash);
            && r.Ok?
            && (MergeFinish(r.value, t, inWorkingDir, split, head, other, otherKeys, headKeys) == FastForwarded
                <==> headHash in History(g, otherHash, no))
  {
    MergeAncestry(g, headHash, otherHash, nh, no);
  }
}
