/**
 * `parse_content`: the files of an archive, each with its name, its bytes and a content type.
 *
 * The archive is taken as its central directory, already read and decompressed: one
 * `Member` per record, in the order `namelist()` lists them. As in `ZipFile`, a name that
 * occurs more than once is looked up (`getinfo`, `read`) as its LAST record, and a
 * member is a directory when its name ends with `/` (`is_dir()` is `endswith('/')`, so a
 * member with the empty name counts as a file).
 */
module Extraction {

  import opened Wrappers
  import Utf8

  type byte = Utf8.byte

  datatype Member = Member(name: string, body: seq<byte>)

  /** One entry of the list `parse_content` returns: `{'Name', 'Body', 'Type'}`. */
  datatype Extracted = Extracted(name: string, body: seq<byte>, contentType: string)

  /** The content type used when no type can be guessed. */
  const FallbackType: string := "binary/octet-stream"

  /** `ZipInfo.is_dir()`: `filename.endswith('/')`. */
  predicate IsDir(name: string)
  {
    |name| > 0 && name[|name| - 1] == '/'
  }

  /** `getinfo(name)`: the index of the last member called `name`; `k` is a member with that name. */
  function LastIndex(archive: seq<Member>, name: string, k: nat): (r: nat)
    requires k < |archive| && archive[k].name == name
    ensures k <= r < |archive| && archive[r].name == name
    ensures forall j :: r < j < |archive| ==> archive[j].name != name
  {
    if archive[|archive| - 1].name == name then |archive| - 1
    else LastIndex(archive[..|archive| - 1], name, k)
  }

  /**
   * `mimetypes.guess_type(name)[0]`, or the fallback when that is `None` or empty
   * (the source tests `not mime`).
   */
  function ContentType(name: string, guess: string -> Option<string>): (t: string)
    ensures t != ""
    ensures guess(name).Some? && guess(name).value != "" ==> t == guess(name).value
    ensures guess(name).None? || guess(name).value == "" ==> t == FallbackType
  {
    var mime := guess(name);
    if mime.None? || mime.value == "" then FallbackType else mime.value
  }

  /** The entry built for the `k`-th name of the name list. */
  function EntryAt(archive: seq<Member>, k: nat, guess: string -> Option<string>): Extracted
    requires k < |archive|
  {
    var info := archive[LastIndex(archive, archive[k].name, k)];
    Extracted(info.name, info.body, ContentType(info.name, guess))
  }

  /** What the loop has built after the first `n` names of the name list. */
  function ExtractedUpTo(archive: seq<Member>, n: nat, guess: string -> Option<string>): seq<Extracted>
    requires n <= |archive|
  {
    if n == 0 then []
    else if IsDir(archive[n - 1].name) then ExtractedUpTo(archive, n - 1, guess)
    else ExtractedUpTo(archive, n - 1, guess) + [EntryAt(archive, n - 1, guess)]
  }

  /** The loop of `parse_content` over `namelist()`, appending every non-directory entry. */
  method ParseContent(archive: seq<Member>, guess: string -> Option<string>) returns (unzipped: seq<Extracted>)
    ensures unzipped == ExtractedUpTo(archive, |archive|, guess)
  {
    unzipped := [];
    for i := 0 to |archive|
      invariant unzipped == ExtractedUpTo(archive, i, guess)
    {
      var name := archive[i].name;
      var info := archive[LastIndex(archive, name, i)];
      if !IsDir(info.name) {
        var fileName := info.name;
        var body := info.body;
        var mime := guess(fileName);
        var contentType := if mime.None? || mime.value == "" then FallbackType else mime.value;
        unzipped := unzipped + [Extracted(fileName, body, contentType)];
      }
    }
  }

  // ---------------------------------------------------------------------------------------
  // Properties

  /** The indices of the non-directory names among the first `n`, in increasing order. */
  function FileIndices(archive: seq<Member>, n: nat): seq<nat>
    requires n <= |archive|
  {
    if n == 0 then []
    else if IsDir(archive[n - 1].name) then FileIndices(archive, n - 1)
    else FileIndices(archive, n - 1) + [n - 1]
  }

  lemma {:induction false} FileIndicesSpec(archive: seq<Member>, n: nat)
    requires n <= |archive|
    ensures forall a :: 0 <= a < |FileIndices(archive, n)| ==> FileIndices(archive, n)[a] < n
    ensures forall a, b :: 0 <= a < b < |FileIndices(archive, n)| ==> FileIndices(archive, n)[a] < FileIndices(archive, n)[b]
    ensures forall i :: i in FileIndices(archive, n) <==> 0 <= i < n && !IsDir(archive[i].name)
  {
    if n > 0 {
      FileIndicesSpec(archive, n - 1);
    }
  }

  /**
   * `parse_content` returns exactly the non-directory entries, in name-list order: the
   * k-th result is the entry built for the k-th non-directory name.
   */
  lemma {:induction false} ExtractedAreFiles(archive: seq<Member>, n: nat, guess: string -> Option<string>)
    requires n <= |archive|
    ensures |ExtractedUpTo(archive, n, guess)| == |FileIndices(archive, n)|
    ensures forall k :: 0 <= k < |FileIndices(archive, n)| ==>
              FileIndices(archive, n)[k] < |archive| &&
              ExtractedUpTo(archive, n, guess)[k] == EntryAt(archive, FileIndices(archive, n)[k], guess)
  {
    if n > 0 {
      ExtractedAreFiles(archive, n - 1, guess);
      var indices, items := FileIndices(archive, n - 1), ExtractedUpTo(archive, n - 1, guess);
      if !IsDir(archive[n - 1].name) {
        var indices', items' := indices + [n - 1], items + [EntryAt(archive, n - 1, guess)];
        assert FileIndices(archive, n) == indices';
        assert ExtractedUpTo(archive, n, guess) == items';
        forall k | 0 <= k < |indices'|
          ensures indices'[k] < |archive| && items'[k] == EntryAt(archive, indices'[k], guess)
        {
          if k < |indices| {
            assert indices'[k] == indices[k] && items'[k] == items[k];
          }
        }
      }
    }
  }

  /** Every extracted entry is a file, carries a non-empty content type, and keeps the name it was listed under. */
  lemma EntryAtSpec(archive: seq<Member>, k: nat, guess: string -> Option<string>)
    requires k < |archive|
    ensures EntryAt(archive, k, guess).name == archive[k].name
    ensures EntryAt(archive, k, guess).contentType != ""
    ensures EntryAt(archive, k, guess).contentType == ContentType(archive[k].name, guess)
  {
  }

  /** With no repeated names each entry carries the full bytes of its own member. */
  lemma UniqueNamesOwnBytes(archive: seq<Member>, k: nat, guess: string -> Option<string>)
    requires k < |archive|
    requires forall a, b :: 0 <= a < b < |archive| ==> archive[a].name != archive[b].name
    ensures EntryAt(archive, k, guess).body == archive[k].body
  {
  }

  /** A repeated name is read from its last record, at every position it is listed. */
  lemma RepeatedNameReadsLast(archive: seq<Member>, a: nat, b: nat, guess: string -> Option<string>)
    requires a < b < |archive| && archive[a].name == archive[b].name
    requires forall j :: b < j < |archive| ==> archive[j].name != archive[b].name
    ensures EntryAt(archive, a, guess) == EntryAt(archive, b, guess)
    ensures EntryAt(archive, a, guess).body == archive[b].body
  {
  }
}
