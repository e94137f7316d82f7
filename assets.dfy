/** Resolving a photo's name to its loaded file: `imageFiles.find(({ name }) => name === n)`. */
module Assets {
  import opened GeoTypes

  /** The first asset whose name is `name`, or None when no asset has that name. */
  function FindAsset(files: seq<ImageAsset>, name: string): (r: Option<ImageAsset>)
    ensures r.None? <==> forall i :: 0 <= i < |files| ==> files[i].name != name
    ensures r.Some? ==> exists i :: 0 <= i < |files| && files[i] == r.value && IsFirstMatch(files, name, i)
  {
    if |files| == 0 then None
    else if files[0].name == name then Some(files[0])
    else match FindAsset(files[1..], name)
      case None => None
      case Some(a) =>
        assert forall i :: 0 <= i < |files| - 1 && IsFirstMatch(files[1..], name, i) ==> IsFirstMatch(files, name, i + 1);
        Some(a)
  }

  /** Position i holds `name` and no earlier position does. */
  ghost predicate IsFirstMatch(files: seq<ImageAsset>, name: string, i: nat) {
    && i < |files| && files[i].name == name
    && forall j :: 0 <= j < i ==> files[j].name != name
  }

  /** Appending assets never changes what an earlier match resolves to, and a name
      missing from the first part resolves within the appended part. */
  lemma {:induction false} FindAssetInPrefix(front: seq<ImageAsset>, back: seq<ImageAsset>, name: string)
    ensures FindAsset(front, name).Some? ==> FindAsset(front + back, name) == FindAsset(front, name)
    ensures FindAsset(front, name).None? ==> FindAsset(front + back, name) == FindAsset(back, name)
  {
    if |front| > 0 {
      assert (front + back)[1..] == front[1..] + back;
      FindAssetInPrefix(front[1..], back, name);
    } else {
      assert front + back == back;
    }
  }
}
