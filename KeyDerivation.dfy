/**
 * The keys the handler derives from the decoded key of the archive that triggered it:
 * the destination prefix the archive's files are written under, and the key of the
 * timestamped backup copy.
 */
module KeyDerivation {

  import opened Wrappers

  const ZipSuffix: string := ".zip"

  /** `pat` occurs in `s` starting at index `i`. */
  predicate OccursAt(s: string, pat: string, i: nat)
  {
    i + |pat| <= |s| && s[i..i + |pat|] == pat
  }

  predicate Contains(s: string, pat: string)
  {
    exists i: nat :: i <= |s| && OccursAt(s, pat, i)
  }

  /** The leftmost occurrence of `pat` in `s` at or after `i`. */
  function FindFrom(s: string, pat: string, i: nat): (r: Option<nat>)
    requires i <= |s|
    ensures r.Some? ==> i <= r.value && OccursAt(s, pat, r.value)
    ensures r.Some? ==> forall j: nat :: i <= j < r.value ==> !OccursAt(s, pat, j)
    ensures r.None? ==> forall j: nat :: i <= j ==> !OccursAt(s, pat, j)
    decreases |s| - i
  {
    if i + |pat| > |s| then None
    else if s[i..i + |pat|] == pat then Some(i)
    else FindFrom(s, pat, i + 1)
  }

  /**
   * `key.split('.zip')[0] + '/'`: the text before the first literal `.zip` (all of
   * `key` when it has none), followed by `/`.
   */
  function Destination(key: string): (d: string)
    ensures |d| >= 1 && d[|d| - 1] == '/'
    ensures d[..|d| - 1] <= key
    ensures |d| - 1 == |key| || OccursAt(key, ZipSuffix, |d| - 1)
    ensures !Contains(d, ZipSuffix)
  {
    var cut := FindFrom(key, ZipSuffix, 0);
    var p := if cut.Some? then key[..cut.value] else key;
    var d := p + "/";
    assert d[..|d| - 1] == p;
    forall j: nat ensures !OccursAt(d, ZipSuffix, j) {
      if j + 4 == |d| {
        assert d[j..j + 4][3] == '/';
      } else if j + 4 < |d| {
        assert !OccursAt(key, ZipSuffix, j);
        assert d[j..j + 4] == key[j..j + 4];
      }
    }
    d
  }

  /** The literal `.zip` cannot overlap itself: no occurrence starts one to three places before another. */
  lemma ZipSuffixNoOverlap(s: string, i: nat, j: nat)
    requires OccursAt(s, ZipSuffix, j) && i < j < i + 4
    ensures !OccursAt(s, ZipSuffix, i)
  {
    assert s[j] == s[j..j + 4][0] == '.';
    if i + 4 <= |s| {
      assert s[i..i + 4][j - i] == '.';
      assert ZipSuffix[j - i] != '.';
    }
  }

  /** A prefix `p` without `.zip`, cut where `key` ends or a `.zip` starts, has no `.zip` of `key` starting inside it. */
  lemma NoCutBefore(key: string, p: string)
    requires p <= key && !Contains(p, ZipSuffix)
    requires p == key || OccursAt(key, ZipSuffix, |p|)
    ensures forall c: nat :: c < |p| ==> !OccursAt(key, ZipSuffix, c)
  {
    forall c: nat | c < |p| ensures !OccursAt(key, ZipSuffix, c) {
      if c + 4 <= |p| {
        assert !OccursAt(p, ZipSuffix, c);
        assert key[c..c + 4] == p[c..c + 4];
      } else if p != key {
        ZipSuffixNoOverlap(key, c, |p|);
      }
    }
  }

  /**
   * The destination prefix is determined by its defining properties: any prefix `p` of
   * `key` without `.zip` that ends where `key` ends or where a `.zip` starts is the one.
   */
  lemma DestinationUnique(key: string, p: string)
    requires p <= key && !Contains(p, ZipSuffix)
    requires p == key || OccursAt(key, ZipSuffix, |p|)
    ensures Destination(key) == p + "/"
  {
    var d := Destination(key);
    var q := d[..|d| - 1];
    forall j: nat ensures !OccursAt(q, ZipSuffix, j) {
      if j + 4 <= |q| {
        assert q[j..j + 4] == d[j..j + 4];
        assert !OccursAt(d, ZipSuffix, j);
      }
    }
    assert !Contains(q, ZipSuffix);
    NoCutBefore(key, p);
    NoCutBefore(key, q);
    assert |p| == |q|;
    assert p == q;
    assert d == q + "/";
  }

  /** Without `.zip` in the key the destination is the whole key and a `/`. */
  lemma DestinationWithoutZip(key: string)
    requires !Contains(key, ZipSuffix)
    ensures Destination(key) == key + "/"
  {
    DestinationUnique(key, key);
  }

  // ---------------------------------------------------------------------------------------
  // The backup name: `re.search('(?<=/)(.*)(?=.zip)', key).group(0)`.
  //
  // A match is a slice key[i..j] such that the character before i is `/` (the look-behind),
  // key[i..j] holds no newline (`.` does not match `\n` without DOTALL), and at j there is
  // one more character other than a newline followed by the literal `zip` (the look-ahead;
  // its `.` is not escaped). `search` takes the leftmost start i, and for that start the
  // greedy `.*` takes the largest j.

  /** Position `j` is any character other than a newline, followed by `zip`. */
  predicate ZipAfter(s: string, j: nat)
  {
    j + 4 <= |s| && s[j] != '\n' && s[j + 1..j + 4] == "zip"
  }

  predicate NoNewline(s: string, i: nat, j: nat)
    requires i <= j <= |s|
  {
    forall k :: i <= k < j ==> s[k] != '\n'
  }

  /** The pattern matches `s[i..j]`. */
  predicate IsMatch(s: string, i: nat, j: nat)
  {
    0 < i <= j && ZipAfter(s, j) && s[i - 1] == '/' && NoNewline(s, i, j)
  }

  /** End of the line that starts at or before `i`: the first newline at or after `i`, or `|s|`. */
  function LineEnd(s: string, i: nat): (e: nat)
    requires i <= |s|
    ensures i <= e <= |s| && NoNewline(s, i, e)
    ensures e < |s| ==> s[e] == '\n'
    decreases |s| - i
  {
    if i == |s| || s[i] == '\n' then i else LineEnd(s, i + 1)
  }

  /** The largest `j` with `i <= j < e` and `ZipAfter(s, j)`: where the greedy `.*` stops. */
  function LastZipBefore(s: string, i: nat, e: nat): (r: Option<nat>)
    requires i <= e <= |s|
    ensures r.Some? ==> i <= r.value < e && ZipAfter(s, r.value)
    ensures r.Some? ==> forall j: nat :: r.value < j < e ==> !ZipAfter(s, j)
    ensures r.None? ==> forall j: nat :: i <= j < e ==> !ZipAfter(s, j)
    decreases e - i
  {
    if e == i then None
    else if ZipAfter(s, e - 1) then Some(e - 1)
    else LastZipBefore(s, i, e - 1)
  }

  /** The leftmost match starting at or after `i`, with its greedy end. */
  function SearchFrom(s: string, i: nat): (r: Option<(nat, nat)>)
    requires i <= |s| + 1
    ensures r.Some? ==> i <= r.value.0 <= r.value.1 <= |s|
    decreases |s| + 1 - i
  {
    if i > |s| then None
    else if i >= 1 && s[i - 1] == '/' && LastZipBefore(s, i, LineEnd(s, i)).Some? then
      Some((i, LastZipBefore(s, i, LineEnd(s, i)).value))
    else
      SearchFrom(s, i + 1)
  }

  /** A match starting at `i` ends before the end of the line it starts on. */
  lemma MatchInLine(s: string, i: nat, j: nat)
    requires i <= |s| && IsMatch(s, i, j)
    ensures j < LineEnd(s, i)
  {
    var e := LineEnd(s, i);
    assert s[j] != '\n';
    assert forall k :: i <= k < j ==> s[k] != '\n';
  }

  /** Where a match starts at `i`, the greedy end found before the line end is the longest one. */
  lemma LongestAt(s: string, i: nat)
    requires 1 <= i <= |s| && s[i - 1] == '/'
    requires LastZipBefore(s, i, LineEnd(s, i)).Some?
    ensures IsMatch(s, i, LastZipBefore(s, i, LineEnd(s, i)).value)
    ensures forall j: nat :: IsMatch(s, i, j) ==> j <= LastZipBefore(s, i, LineEnd(s, i)).value
  {
    forall j: nat | IsMatch(s, i, j) ensures j <= LastZipBefore(s, i, LineEnd(s, i)).value {
      MatchInLine(s, i, j);
    }
  }

  /** Where the search moves past `i`, nothing matches from `i`. */
  lemma NoneAt(s: string, i: nat)
    requires i <= |s|
    requires !(i >= 1 && s[i - 1] == '/' && LastZipBefore(s, i, LineEnd(s, i)).Some?)
    ensures forall j: nat :: !IsMatch(s, i, j)
  {
    forall j: nat ensures !IsMatch(s, i, j) {
      if i >= 1 && s[i - 1] == '/' && IsMatch(s, i, j) {
        MatchInLine(s, i, j);
      }
    }
  }

  /** What `SearchFrom` finds is a match, the leftmost one at or after `i` and the longest there. */
  lemma {:induction false} SearchFromSpec(s: string, i: nat)
    requires i <= |s| + 1
    ensures var r := SearchFrom(s, i);
      && (r.Some? ==> IsMatch(s, r.value.0, r.value.1))
      && (r.Some? ==> forall i': nat, j: nat :: i <= i' && IsMatch(s, i', j) ==>
                        r.value.0 < i' || (r.value.0 == i' && j <= r.value.1))
      && (r.None? ==> forall i': nat, j: nat :: i <= i' ==> !IsMatch(s, i', j))
    decreases |s| + 1 - i
  {
    if i <= |s| {
      if i >= 1 && s[i - 1] == '/' && LastZipBefore(s, i, LineEnd(s, i)).Some? {
        LongestAt(s, i);
      } else {
        NoneAt(s, i);
        SearchFromSpec(s, i + 1);
      }
    }
  }

  /**
   * The position of `re.search('(?<=/)(.*)(?=.zip)', s)`: the leftmost start, and for it
   * the rightmost end; `None` when nothing matches (see `BackupMatchSpec`).
   */
  function BackupMatch(s: string): (r: Option<(nat, nat)>)
    ensures r.Some? ==> 0 < r.value.0 <= r.value.1 <= |s|
  {
    SearchFrom(s, 0)
  }

  /** `BackupMatch` is the leftmost match, the longest one there, and `None` exactly when there is none. */
  lemma BackupMatchSpec(s: string)
    ensures var r := BackupMatch(s);
      && (r.Some? ==> IsMatch(s, r.value.0, r.value.1))
      && (r.Some? ==> forall i: nat, j: nat :: IsMatch(s, i, j) ==>
                        r.value.0 < i || (r.value.0 == i && j <= r.value.1))
      && (r.None? ==> forall i: nat, j: nat :: !IsMatch(s, i, j))
  {
    SearchFromSpec(s, 0);
  }

  /** `group(0)` of that search, or `None` where the source's `.group(0)` raises. */
  function BackupBaseName(key: string): Option<string>
  {
    match BackupMatch(key)
    case Some((i, j)) => Some(key[i..j])
    case None => None
  }

  /** `backupfolder + '/' + name + '_' + timestamp + '.zip'`, or `None` when the search fails. */
  function BackupKey(folder: string, key: string, timestamp: string): Option<string>
  {
    match BackupBaseName(key)
    case Some(name) => Some(folder + "/" + name + "_" + timestamp + ".zip")
    case None => None
  }

  lemma NotInPrefix(s: string, p: nat, c: char)
    requires p <= |s| && c !in s[..p]
    ensures forall k :: 0 <= k < p ==> s[k] != c
  {
    forall k | 0 <= k < p ensures s[k] != c {
      assert s[..p][k] == s[k];
    }
  }

  /**
   * On a key without newlines the capture starts right after the FIRST `/` and ends just
   * before the LAST "any character + zip" that follows it.
   */
  lemma FirstSlashCapture(s: string, p: nat, j: nat)
    requires '\n' !in s
    requires p < |s| && s[p] == '/' && '/' !in s[..p]
    requires p + 1 <= j && ZipAfter(s, j)
    requires forall j': nat :: j < j' ==> !ZipAfter(s, j')
    ensures BackupBaseName(s) == Some(s[p + 1..j])
  {
    NotInPrefix(s, |s|, '\n');
    NotInPrefix(s, p, '/');
    assert IsMatch(s, p + 1, j);
    BackupMatchSpec(s);
    var m := BackupMatch(s).value;
    assert m.0 == p + 1;
    assert m.1 == j;
  }

  /** The search fails, and the source raises, when the key has no `/` or no "any character + zip". */
  lemma NoMatchWhen(s: string)
    requires '/' !in s || forall j: nat :: !ZipAfter(s, j)
    ensures BackupBaseName(s) == None
  {
    BackupMatchSpec(s);
    if '/' !in s {
      forall i: nat, j: nat ensures !IsMatch(s, i, j) {
        if 0 < i <= |s| {
          assert s[i - 1] in s;
        }
      }
    }
  }

  /** A backup key starts with the backup folder and `/`, and ends with `_`, the timestamp and `.zip`. */
  lemma BackupKeyShape(folder: string, key: string, timestamp: string)
    requires BackupKey(folder, key, timestamp).Some?
    ensures var b := BackupKey(folder, key, timestamp).value;
      && folder + "/" <= b
      && |b| >= |folder| + |timestamp| + 6
      && b[|b| - |timestamp| - 5..] == "_" + timestamp + ".zip"
      && b[|folder| + 1..|b| - |timestamp| - 5] == BackupBaseName(key).value
  {
  }

  /** A string without a `.` has no `.zip` in it. */
  lemma NoDotNoZip(s: string)
    requires '.' !in s
    ensures !Contains(s, ZipSuffix)
  {
    NotInPrefix(s, |s|, '.');
    forall j: nat ensures !OccursAt(s, ZipSuffix, j) {
      if j + 4 <= |s| {
        assert s[j..j + 4][0] == s[j];
      }
    }
  }

  /** The destination derived for `uploads/report.zip`. */
  lemma ReportDestination()
    ensures Destination("uploads/report.zip") == "uploads/report/"
  {
    var key := "uploads/report.zip";
    var p := "uploads/report";
    assert key[..14] == p;
    assert key[14..18] == ZipSuffix;
    NoDotNoZip(p);
    DestinationUnique(key, p);
  }

  /** The capture for `uploads/report.zip`. */
  lemma ReportBaseName()
    ensures BackupBaseName("uploads/report.zip") == Some("report")
  {
    var key := "uploads/report.zip";
    assert key[..7] == "uploads";
    FirstSlashCapture(key, 7, 14);
    assert key[8..14] == "report";
  }

  /** The capture runs from the first `/` even when more follow. */
  lemma CaptureFromFirstSlash()
    ensures BackupBaseName("a/b/c.zip") == Some("b/c")
  {
    var s := "a/b/c.zip";
    assert s[..1] == "a";
    FirstSlashCapture(s, 1, 5);
    assert s[2..5] == "b/c";
  }

  /** The greedy `.*` runs to the last `.zip`. */
  lemma CaptureToLastZip()
    ensures BackupBaseName("a/b.zip.zip") == Some("b.zip")
  {
    var s := "a/b.zip.zip";
    assert s[..1] == "a";
    FirstSlashCapture(s, 1, 7);
    assert s[2..7] == "b.zip";
  }

  /** The unescaped `.` of the look-ahead accepts any character before `zip`. */
  lemma CaptureBeforeAnyCharZip()
    ensures BackupBaseName("a/dataxzip") == Some("data")
  {
    var s := "a/dataxzip";
    assert s[..1] == "a";
    FirstSlashCapture(s, 1, 6);
    assert s[2..6] == "data";
  }
}
