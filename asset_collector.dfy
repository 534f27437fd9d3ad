/**
  The scan of `extract_images_from_data`: every string in a JSON value that
  looks like a game asset path is resolved with `parse_game_asset_path`, and
  the resolved URLs are gathered. Here the scan is a pure function of the
  value; the spider's method adds its result to the set it keeps.
*/
module AssetCollector {

  import opened Wrappers
  import opened JsonValues
  import opened Text
  import opened UrlJoin
  import opened AssetPath

  /** `"/Game/Aki/" in data or ("/UI/" in data and "." in data)`: a candidate always holds a `/`. */
  function IsCandidate(s: string): (r: bool)
    ensures r ==> '/' in s
  {
    if Contains(s, GAME_ROOT) then
      assert GAME_ROOT[0] == '/';
      ContainsKeepsChars(s, GAME_ROOT, '/');
      true
    else if Contains(s, "/UI/") && '.' in s then
      assert "/UI/"[0] == '/';
      ContainsKeepsChars(s, "/UI/", '/');
      true
    else false
  }

  /**
    The values whose candidate strings are all in the case the resolver
    models (see `ParseGameAssetPath`).
  */
  predicate Resolvable(j: Json)
    decreases j
  {
    match j
    case Str(s) => IsCandidate(s) ==> AllPlain(s)
    case Arr(items) => forall i | 0 <= i < |items| :: Resolvable(items[i])
    case Obj(members) => forall i | 0 <= i < |members| :: Resolvable(members[i].value)
    case _ => true
  }

  /** A URL is one the resolver produces: on the asset host, a `.webp` file. */
  predicate AssetUrl(u: string) {
    StartsWith(u, ASSET_HOST) && EndsWith(u, WEBP)
  }

  /** What one string leaf adds: its resolved URL, when it is a candidate and resolves. */
  function FromLeaf(s: string): (urls: set<string>)
    requires IsCandidate(s) ==> AllPlain(s)
    ensures forall u | u in urls :: AssetUrl(u)
    ensures |urls| <= 1
  {
    if IsCandidate(s) then
      match ParseGameAssetPath(Str(s))
      case Some(u) => if u != [] then {u} else {}
      case None => {}
    else {}
  }

  /** The URLs the scan of `j` adds. */
  function Collect(j: Json): (urls: set<string>)
    requires Resolvable(j)
    ensures forall u | u in urls :: AssetUrl(u)
    decreases j, 1
  {
    match j
    case Str(s) => FromLeaf(s)
    case Arr(items) => CollectItems(items)
    case Obj(members) => CollectMembers(members)
    case _ => {}
  }

  /** The URLs the scan of the items of a list adds. */
  function CollectItems(items: seq<Json>): (urls: set<string>)
    requires forall i | 0 <= i < |items| :: Resolvable(items[i])
    ensures forall u | u in urls :: AssetUrl(u)
    decreases items, 0
  {
    if items == [] then {}
    else CollectItems(items[..|items| - 1]) + Collect(Last(items))
  }

  /** The URLs the scan of the values of a dict adds. */
  function CollectMembers(members: seq<Member>): (urls: set<string>)
    requires forall i | 0 <= i < |members| :: Resolvable(members[i].value)
    ensures forall u | u in urls :: AssetUrl(u)
    decreases members, 0
  {
    if members == [] then {}
    else CollectMembers(members[..|members| - 1]) + Collect(Last(members).value)
  }

  /** Scanning one more item of a list adds what that item's scan adds. */
  lemma CollectItemsStep(items: seq<Json>, i: nat)
    requires forall k | 0 <= k < |items| :: Resolvable(items[k])
    requires i < |items|
    ensures CollectItems(items[..i + 1]) == CollectItems(items[..i]) + Collect(items[i])
  {
    var p := items[..i + 1];
    assert p[..|p| - 1] == items[..i];
  }

  /** Scanning one more member of a dict adds what that member's value's scan adds. */
  lemma CollectMembersStep(members: seq<Member>, i: nat)
    requires forall k | 0 <= k < |members| :: Resolvable(members[k].value)
    requires i < |members|
    ensures CollectMembers(members[..i + 1]) == CollectMembers(members[..i]) + Collect(members[i].value)
  {
    var p := members[..i + 1];
    assert p[..|p| - 1] == members[..i];
  }

  // ---------------------------------------------------------------------------
  // An independent description: resolve every string leaf

  /** The string leaves of a value, in the order the scan visits them. */
  function Leaves(j: Json): seq<string>
    decreases j, 1
  {
    match j
    case Str(s) => [s]
    case Arr(items) => LeavesItems(items)
    case Obj(members) => LeavesMembers(members)
    case _ => []
  }

  function LeavesItems(items: seq<Json>): seq<string>
    decreases items, 0
  {
    if items == [] then [] else LeavesItems(items[..|items| - 1]) + Leaves(Last(items))
  }

  function LeavesMembers(members: seq<Member>): seq<string>
    decreases members, 0
  {
    if members == [] then [] else LeavesMembers(members[..|members| - 1]) + Leaves(Last(members).value)
  }

  /** The string `s` is a candidate and resolves to `u`. */
  predicate ResolvesTo(s: string, u: string) {
    IsCandidate(s) && AllPlain(s) && ParseGameAssetPath(Str(s)) == Some(u)
  }

  /** Every candidate in the modelled case resolves: the `if real_url` test never fails. */
  lemma CandidateResolves(s: string)
    requires IsCandidate(s) && AllPlain(s)
    ensures ParseGameAssetPath(Str(s)).Some?
    ensures FromLeaf(s) == {ParseGameAssetPath(Str(s)).value}
  {
    CandidateKeepsSlash(s);
    var u := ParseGameAssetPath(Str(s)).value;
    assert StartsWith(u, ASSET_HOST);
    assert u != [];
  }

  /** A leaf adds exactly the URL it resolves to. */
  lemma FromLeafResolves(s: string, u: string)
    requires IsCandidate(s) ==> AllPlain(s)
    ensures u in FromLeaf(s) <==> ResolvesTo(s, u)
  {
    if IsCandidate(s) {
      CandidateResolves(s);
    }
  }

  /**
    The scan adds exactly the URLs that the string leaves of the value
    resolve to: nothing from numbers, booleans or nulls, nothing from keys,
    and one URL for every candidate.
  */
  lemma {:induction false} CollectResolvesLeaves(j: Json, u: string)
    requires Resolvable(j)
    ensures u in Collect(j) <==> exists s | s in Leaves(j) :: ResolvesTo(s, u)
    decreases j, 1
  {
    match j
    case Str(s) =>
      FromLeafResolves(s, u);
      assert s in Leaves(j);
    case Arr(items) => CollectItemsResolvesLeaves(items, u);
    case Obj(members) => CollectMembersResolvesLeaves(members, u);
    case _ =>
  }

  lemma {:induction false} CollectItemsResolvesLeaves(items: seq<Json>, u: string)
    requires forall i | 0 <= i < |items| :: Resolvable(items[i])
    ensures u in CollectItems(items) <==> exists s | s in LeavesItems(items) :: ResolvesTo(s, u)
    decreases items, 0
  {
    if items != [] {
      var front := items[..|items| - 1];
      CollectItemsResolvesLeaves(front, u);
      CollectResolvesLeaves(Last(items), u);
      UnionOfLeaves(LeavesItems(front), Leaves(Last(items)), u);
    }
  }

  lemma {:induction false} CollectMembersResolvesLeaves(members: seq<Member>, u: string)
    requires forall i | 0 <= i < |members| :: Resolvable(members[i].value)
    ensures u in CollectMembers(members) <==> exists s | s in LeavesMembers(members) :: ResolvesTo(s, u)
    decreases members, 0
  {
    if members != [] {
      var front := members[..|members| - 1];
      CollectMembersResolvesLeaves(front, u);
      CollectResolvesLeaves(Last(members).value, u);
      UnionOfLeaves(LeavesMembers(front), Leaves(Last(members).value), u);
    }
  }

  /** A leaf of `a + b` resolving to `u` is a leaf of `a` or of `b` doing so. */
  lemma UnionOfLeaves(a: seq<string>, b: seq<string>, u: string)
    ensures (exists s | s in a + b :: ResolvesTo(s, u))
            <==> (exists s | s in a :: ResolvesTo(s, u)) || (exists s | s in b :: ResolvesTo(s, u))
  {
    if exists s | s in a + b :: ResolvesTo(s, u) {
      var s :| s in a + b && ResolvesTo(s, u);
      assert s in a || s in b;
    }
    if exists s | s in a :: ResolvesTo(s, u) {
      var s :| s in a && ResolvesTo(s, u);
      assert s in a + b;
    }
    if exists s | s in b :: ResolvesTo(s, u) {
      var s :| s in b && ResolvesTo(s, u);
      assert s in a + b;
    }
  }

  /** Every candidate leaf of the value contributes its URL. */
  lemma CandidateLeafCollected(j: Json, s: string)
    requires Resolvable(j) && s in Leaves(j) && IsCandidate(s) && AllPlain(s)
    ensures ParseGameAssetPath(Str(s)).Some?
    ensures ParseGameAssetPath(Str(s)).value in Collect(j)
  {
    CandidateResolves(s);
    CollectResolvesLeaves(j, ParseGameAssetPath(Str(s)).value);
  }

  /** A value without candidate strings adds nothing. */
  lemma NoCandidateNoUrls(j: Json)
    requires Resolvable(j)
    requires forall s | s in Leaves(j) :: !IsCandidate(s)
    ensures Collect(j) == {}
  {
    forall u ensures u !in Collect(j) {
      CollectResolvesLeaves(j, u);
    }
  }
}
