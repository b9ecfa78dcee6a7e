/** The client-side memories page: the extension of a memory's URL, the
    name a single download is saved under, and the bulk download, which
    fetches every memory and adds it to an archive under a numbered name.
    The archive is an object the loop adds entries to; `fetch` is replaced
    by whether each fetch call succeeded. */
module MemoriesPage {

  import opened Text
  import opened MemoriesApi

  /** Whether the regular expression `\.[a-zA-Z0-9]+$` matches `url` at
      position k: a dot, then one or more ASCII letters or digits up to the
      end. */
  predicate ExtensionMatchAt(url: string, k: int)
  {
    0 <= k && k + 1 < |url| && url[k] == '.' && forall j :: k < j < |url| ==> IsAlnum(url[j])
  }

  /** The longest suffix of `s` made of ASCII letters and digits. */
  function AlnumSuffix(s: string): (t: string)
    ensures |t| <= |s| && t == s[|s| - |t|..]
    ensures forall i :: 0 <= i < |t| ==> IsAlnum(t[i])
    ensures |t| < |s| ==> !IsAlnum(s[|s| - |t| - 1])
    decreases |s|
  {
    if s == [] || !IsAlnum(s[|s| - 1]) then [] else AlnumSuffix(s[..|s| - 1]) + [s[|s| - 1]]
  }

  /** `getExtension(url)`: the text the regular expression matches, with
      its case kept, or the empty string when it does not match. */
  function GetExtension(url: string): (r: string)
    ensures r == [] || (r[0] == '.' && |r| <= |url| && r == url[|url| - |r|..])
  {
    var t := AlnumSuffix(url);
    if t != [] && |t| < |url| && url[|url| - |t| - 1] == '.' then url[|url| - |t| - 1..] else []
  }

  /** The extension is exactly the regular expression's match: a non-empty
      result is a match, and any match is the result. */
  lemma GetExtensionIsMatch(url: string)
    ensures GetExtension(url) != [] ==> ExtensionMatchAt(url, |url| - |GetExtension(url)|)
    ensures forall k :: ExtensionMatchAt(url, k) ==> GetExtension(url) == url[k..]
  {
    MatchAfterAlnumSuffix(url, AlnumSuffix(url), GetExtension(url));
  }

  /** The match argument for any `t` with the properties of the longest
      alphanumeric suffix, and the result `r` chosen from it. */
  lemma MatchAfterAlnumSuffix(url: string, t: string, r: string)
    requires |t| <= |url| && t == url[|url| - |t|..]
    requires forall i :: 0 <= i < |t| ==> IsAlnum(t[i])
    requires |t| < |url| ==> !IsAlnum(url[|url| - |t| - 1])
    requires r == if t != [] && |t| < |url| && url[|url| - |t| - 1] == '.' then url[|url| - |t| - 1..] else []
    ensures r != [] ==> ExtensionMatchAt(url, |url| - |r|)
    ensures forall k :: ExtensionMatchAt(url, k) ==> r == url[k..]
  {
    assert forall k :: ExtensionMatchAt(url, k) ==> k == |url| - |t| - 1;
    if r != [] {
      assert forall j :: |url| - |t| - 1 < j < |url| ==> url[j] == t[j - (|url| - |t|)];
    }
  }

  /** A dot followed by one or more ASCII letters or digits. */
  predicate IsExtensionText(e: string)
  {
    |e| >= 2 && e[0] == '.' && forall i :: 1 <= i < |e| ==> IsAlnum(e[i])
  }

  /** A URL that ends in such a text has it as its extension. */
  lemma GetExtensionOfSuffix(url: string, e: string)
    requires IsExtensionText(e)
    requires |e| <= |url| && url[|url| - |e|..] == e
    ensures GetExtension(url) == e
  {
    var k := |url| - |e|;
    assert forall j :: k < j < |url| ==> url[j] == e[j - k];
    assert ExtensionMatchAt(url, k);
    GetExtensionIsMatch(url);
  }

  /** Putting text in front of a name that ends in an extension does not
      change the extension. */
  lemma GetExtensionBehindPrefix(prefix: string, name: string, e: string)
    requires IsExtensionText(e)
    requires |e| <= |name| && e == name[|name| - |e|..]
    ensures GetExtension(prefix + name) == e
  {
    var url := prefix + name;
    assert url[|url| - |e|..] == e by {
      assert url[|prefix|..] == name;
    }
    GetExtensionOfSuffix(url, e);
  }

  /** `url.split('/').pop() || 'download'`. */
  function DownloadName(url: string): (r: string)
    ensures r != [] && '/' !in r
  {
    var parts := Split(url, '/');
    var last := parts[|parts| - 1];
    if last == [] then "download" else last
  }

  /** The download name is what follows the last `/`, or `download` when
      nothing does. */
  lemma DownloadNameIsLastSegment(url: string)
    ensures DownloadName(url) == if AfterLast(url, '/') == [] then "download" else AfterLast(url, '/')
  {
    SplitLast(url, '/');
    DownloadNameOfLastPiece(url, AfterLast(url, '/'));
  }

  /** The download name is chosen from the last piece of the split alone. */
  lemma DownloadNameOfLastPiece(url: string, last: string)
    requires last == Split(url, '/')[|Split(url, '/')| - 1]
    ensures DownloadName(url) == if last == [] then "download" else last
  {
  }

  /** A name put after text ending in `/` downloads as that name. */
  lemma DownloadNameAfterSlash(dir: string, name: string)
    requires dir != [] && dir[|dir| - 1] == '/'
    requires name != [] && '/' !in name
    ensures DownloadName(dir + name) == name
  {
    var url := dir + name;
    assert url == dir[..|dir| - 1] + ['/'] + name;
    AfterLastOfJoin(dir[..|dir| - 1], '/', name);
    DownloadNameIsLastSegment(url);
  }

  /** A memory served at `/uploads/<name>` downloads as `<name>`. */
  lemma DownloadNameOfUpload(name: string)
    requires name != [] && '/' !in name
    ensures DownloadName(UploadsPrefix + name) == name
  {
    DownloadNameAfterSlash(UploadsPrefix, name);
  }

  /** `memories.filter(m => m.type === kind)`. */
  function OfKind(ms: seq<Memory>, kind: MemoryType): (r: seq<Memory>)
    ensures |r| <= |ms|
    ensures forall m :: m in r <==> m in ms && m.kind == kind
    decreases |ms|
  {
    if ms == [] then []
    else
      var rest := OfKind(ms[1..], kind);
      assert forall m :: m in ms <==> m == ms[0] || m in ms[1..];
      if ms[0].kind == kind then [ms[0]] + rest else rest
  }

  /** The photo and audio lists together hold every memory exactly once. */
  lemma {:induction false} PartitionCoversAll(ms: seq<Memory>)
    ensures |OfKind(ms, Photo)| + |OfKind(ms, Audio)| == |ms|
    ensures multiset(OfKind(ms, Photo)) + multiset(OfKind(ms, Audio)) == multiset(ms)
    decreases |ms|
  {
    if ms != [] {
      PartitionCoversAll(ms[1..]);
      assert ms == [ms[0]] + ms[1..];
    }
  }

  /** The photo list and the audio list are as long as the memories
      together. */
  lemma PartitionCount(ms: seq<Memory>)
    ensures |OfKind(ms, Photo)| + |OfKind(ms, Audio)| == |ms|
  {
    PartitionCoversAll(ms);
  }

  /** Filtering keeps the order: the filter of a concatenation is the
      concatenation of the filters. */
  lemma {:induction false} OfKindAppend(a: seq<Memory>, b: seq<Memory>, kind: MemoryType)
    ensures OfKind(a + b, kind) == OfKind(a, kind) + OfKind(b, kind)
    decreases |a|
  {
    if a != [] {
      assert (a + b)[1..] == a[1..] + b;
      OfKindAppend(a[1..], b, kind);
    } else {
      assert a + b == b;
    }
  }

  const PhotoPrefix: string := "foto_"
  const AudioPrefix: string := "ses_"

  /** Whether `s` begins with `prefix`. */
  predicate StartsWith(s: string, prefix: string)
  {
    |prefix| <= |s| && s[..|prefix|] == prefix
  }

  /** The archive name of item i of a category: the category's prefix, the
      one-based position in decimal, and the extension of its URL. Reading
      the digits after the prefix back gives i + 1, and what follows them is
      the extension. */
  function EntryName(prefix: string, i: nat, url: string): (r: string)
    ensures StartsWith(r, prefix)
    ensures var d := LeadingDigits(r[|prefix|..]);
      ParseDecimal(d) == i + 1 && r == prefix + d + GetExtension(url)
  {
    var d := NatToString(i + 1);
    var e := GetExtension(url);
    LeadingDigitsOfJoin(d, e);
    ParseNatToString(i + 1);
    assert (prefix + d + e)[|prefix|..] == d + e;
    prefix + d + e
  }

  /** Within a category, different positions give different names, whatever
      the URLs. */
  lemma EntryNameInjective(prefix: string, i: nat, u: string, j: nat, v: string)
    requires EntryName(prefix, i, u) == EntryName(prefix, j, v)
    ensures i == j
  {
  }

  /** A photo name is never an audio name. */
  lemma CategoriesDoNotClash(i: nat, u: string, j: nat, v: string)
    ensures EntryName(PhotoPrefix, i, u) != EntryName(AudioPrefix, j, v)
  {
    assert EntryName(PhotoPrefix, i, u)[0] == 'f';
    assert EntryName(AudioPrefix, j, v)[0] == 's';
  }

  /** How many fetches succeeded. */
  function Successes(ok: seq<bool>): (n: nat)
    ensures n <= |ok|
    decreases |ok|
  {
    if ok == [] then 0 else Successes(ok[..|ok| - 1]) + (if ok[|ok| - 1] then 1 else 0)
  }

  predicate Distinct(keys: seq<string>)
  {
    forall i, j :: 0 <= i < |keys| && 0 <= j < |keys| && keys[i] == keys[j] ==> i == j
  }

  /** The map a loop builds by adding `keys[i] := values[i]` for every i
      whose `ok[i]` holds, in order; a later key replaces an equal earlier
      one, as a second `zip.file` with the same name would. */
  function Inserted(keys: seq<string>, values: seq<string>, ok: seq<bool>): map<string, string>
    requires |keys| == |values| == |ok|
    decreases |keys|
  {
    if keys == [] then map[]
    else
      var n := |keys| - 1;
      var before := Inserted(keys[..n], values[..n], ok[..n]);
      if ok[n] then before[keys[n] := values[n]] else before
  }

  /** The keys present are those of the successful insertions. */
  lemma {:induction false} InsertedKeys(keys: seq<string>, values: seq<string>, ok: seq<bool>)
    requires |keys| == |values| == |ok|
    ensures forall key :: key in Inserted(keys, values, ok) <==>
      exists i :: 0 <= i < |keys| && ok[i] && key == keys[i]
    decreases |keys|
  {
    if keys != [] {
      var n := |keys| - 1;
      InsertedKeys(keys[..n], values[..n], ok[..n]);
      forall key ensures key in Inserted(keys, values, ok) <==>
        exists i :: 0 <= i < |keys| && ok[i] && key == keys[i]
      {
        if key in Inserted(keys, values, ok) && !(ok[n] && key == keys[n]) {
          assert key in Inserted(keys[..n], values[..n], ok[..n]);
          var i :| 0 <= i < n && ok[..n][i] && key == keys[..n][i];
          assert ok[i] && key == keys[i];
        }
        if i :| 0 <= i < |keys| && ok[i] && key == keys[i] {
          if i < n {
            assert ok[..n][i] && keys[..n][i] == keys[i];
          }
        }
      }
    }
  }

  /** With distinct keys, key i holds value i exactly when its insertion
      happened, and is absent otherwise. */
  lemma {:induction false} InsertedAt(keys: seq<string>, values: seq<string>, ok: seq<bool>, i: nat)
    requires |keys| == |values| == |ok| && i < |keys|
    requires Distinct(keys)
    ensures ok[i] ==> keys[i] in Inserted(keys, values, ok) && Inserted(keys, values, ok)[keys[i]] == values[i]
    ensures !ok[i] ==> keys[i] !in Inserted(keys, values, ok)
    decreases |keys|
  {
    var n := |keys| - 1;
    if i < n {
      assert Distinct(keys[..n]);
      InsertedAt(keys[..n], values[..n], ok[..n], i);
      assert keys[..n][i] == keys[i] && values[..n][i] == values[i] && ok[..n][i] == ok[i];
    } else if !ok[n] {
      InsertedKeys(keys[..n], values[..n], ok[..n]);
    }
  }

  /** With distinct keys, the map has one entry per successful insertion. */
  lemma {:induction false} InsertedSize(keys: seq<string>, values: seq<string>, ok: seq<bool>)
    requires |keys| == |values| == |ok|
    requires Distinct(keys)
    ensures |Inserted(keys, values, ok)| == Successes(ok)
    decreases |keys|
  {
    if keys != [] {
      var n := |keys| - 1;
      assert Distinct(keys[..n]);
      InsertedSize(keys[..n], values[..n], ok[..n]);
      if ok[n] {
        InsertedAt(keys, values, ok[..n] + [false], n);
        assert (ok[..n] + [false])[..n] == ok[..n];
      }
    }
  }

  /** One more step of the loop: the map over the first i + 1 positions is
      the map over the first i with insertion i applied. */
  lemma InsertedStep(keys: seq<string>, values: seq<string>, ok: seq<bool>, i: nat)
    requires |keys| == |values| == |ok| && i < |keys|
    ensures Inserted(keys[..i + 1], values[..i + 1], ok[..i + 1])
         == if ok[i] then Inserted(keys[..i], values[..i], ok[..i])[keys[i] := values[i]]
            else Inserted(keys[..i], values[..i], ok[..i])
  {
    assert keys[..i + 1][..i] == keys[..i];
    assert values[..i + 1][..i] == values[..i];
    assert ok[..i + 1][..i] == ok[..i];
  }

  /** Every key of a category's entries starts with the category's prefix. */
  lemma EntriesKeysHavePrefix(prefix: string, items: seq<Memory>, ok: seq<bool>)
    requires |ok| == |items|
    ensures forall key :: key in Entries(prefix, items, ok) ==> StartsWith(key, prefix)
  {
    InsertedKeys(Names(prefix, items), Urls(items), ok);
  }

  /** The archive names of a category's items, position by position. */
  function Names(prefix: string, items: seq<Memory>): (ns: seq<string>)
    ensures |ns| == |items|
  {
    seq(|items|, i requires 0 <= i < |items| => EntryName(prefix, i, items[i].url))
  }

  function Urls(items: seq<Memory>): (us: seq<string>)
    ensures |us| == |items|
  {
    seq(|items|, i requires 0 <= i < |items| => items[i].url)
  }

  /** Numbering by position makes a category's names distinct. */
  lemma NamesDistinct(prefix: string, items: seq<Memory>)
    ensures Distinct(Names(prefix, items))
  {
    var ns := Names(prefix, items);
    forall i, j | 0 <= i < |ns| && 0 <= j < |ns| && ns[i] == ns[j] ensures i == j {
      EntryNameInjective(prefix, i, items[i].url, j, items[j].url);
    }
  }

  /** The entries one loop of the bulk download adds. */
  function Entries(prefix: string, items: seq<Memory>, ok: seq<bool>): map<string, string>
    requires |ok| == |items|
  {
    Inserted(Names(prefix, items), Urls(items), ok)
  }

  /** Item i is stored under its own numbered name when its fetch succeeded,
      and that name is absent when it failed: a failure neither adds an
      entry nor shifts the numbers of later items. */
  lemma EntriesAt(prefix: string, items: seq<Memory>, ok: seq<bool>, i: nat)
    requires |ok| == |items| && i < |items|
    ensures ok[i] ==> EntryName(prefix, i, items[i].url) in Entries(prefix, items, ok)
                      && Entries(prefix, items, ok)[EntryName(prefix, i, items[i].url)] == items[i].url
    ensures !ok[i] ==> EntryName(prefix, i, items[i].url) !in Entries(prefix, items, ok)
  {
    NamesDistinct(prefix, items);
    InsertedAt(Names(prefix, items), Urls(items), ok, i);
  }

  /** Every name in a category's entries is the numbered name of an item
      whose fetch succeeded. */
  lemma EntriesKeys(prefix: string, items: seq<Memory>, ok: seq<bool>)
    requires |ok| == |items|
    ensures forall key :: key in Entries(prefix, items, ok) ==>
      exists i :: 0 <= i < |items| && ok[i] && key == EntryName(prefix, i, items[i].url)
  {
    InsertedKeys(Names(prefix, items), Urls(items), ok);
  }

  /** A category holds exactly as many entries as it had successful
      fetches. */
  lemma EntriesSize(prefix: string, items: seq<Memory>, ok: seq<bool>)
    requires |ok| == |items|
    ensures |Entries(prefix, items, ok)| == Successes(ok)
  {
    NamesDistinct(prefix, items);
    InsertedSize(Names(prefix, items), Urls(items), ok);
  }

  /** The archive the bulk download fills: the photo entries and the audio
      entries. `fetched` holds the outcome of each fetch call in the order
      they are made, photos first and then audio. */
  function Plan(memories: seq<Memory>, fetched: seq<bool>): (r: map<string, string>)
    requires |fetched| == |memories|
    ensures forall key :: key in r ==> StartsWith(key, PhotoPrefix) || StartsWith(key, AudioPrefix)
  {
    var photos := OfKind(memories, Photo);
    var audios := OfKind(memories, Audio);
    PartitionCount(memories);
    EntriesKeysHavePrefix(PhotoPrefix, photos, fetched[..|photos|]);
    EntriesKeysHavePrefix(AudioPrefix, audios, fetched[|photos|..]);
    Entries(PhotoPrefix, photos, fetched[..|photos|]) + Entries(AudioPrefix, audios, fetched[|photos|..])
  }

  lemma SuccessesAppend(a: seq<bool>, b: seq<bool>)
    ensures Successes(a + b) == Successes(a) + Successes(b)
    decreases |b|
  {
    if b != [] {
      assert (a + b)[..|a + b| - 1] == a + b[..|b| - 1];
      SuccessesAppend(a, b[..|b| - 1]);
    } else {
      assert a + b == a;
    }
  }

  /** Photo i of the page's photo list is in the archive as
      `foto_<i+1><ext>` exactly when its fetch succeeded. */
  lemma PlanPhoto(memories: seq<Memory>, fetched: seq<bool>, i: nat)
    requires |fetched| == |memories| && i < |OfKind(memories, Photo)|
    ensures var photo := OfKind(memories, Photo)[i];
      var name := EntryName(PhotoPrefix, i, photo.url);
      (fetched[i] ==> name in Plan(memories, fetched) && Plan(memories, fetched)[name] == photo.url)
      && (!fetched[i] ==> name !in Plan(memories, fetched))
  {
    var photos := OfKind(memories, Photo);
    PartitionCount(memories);
    var p := |photos|;
    PhotoEntry(photos, fetched[..p], OfKind(memories, Audio), fetched[p..], i);
  }

  /** Audio j of the page's audio list is in the archive as `ses_<j+1><ext>`
      exactly when its fetch, made after all photo fetches, succeeded. */
  lemma PlanAudio(memories: seq<Memory>, fetched: seq<bool>, j: nat)
    requires |fetched| == |memories| && j < |OfKind(memories, Audio)|
    ensures var p := |OfKind(memories, Photo)|;
      var audio := OfKind(memories, Audio)[j];
      var name := EntryName(AudioPrefix, j, audio.url);
      p + j < |fetched|
      && (fetched[p + j] ==> name in Plan(memories, fetched) && Plan(memories, fetched)[name] == audio.url)
      && (!fetched[p + j] ==> name !in Plan(memories, fetched))
  {
    var photos := OfKind(memories, Photo);
    PartitionCount(memories);
    var p := |photos|;
    AudioEntry(photos, OfKind(memories, Audio), fetched, j);
  }

  /** In the union of both categories' entries, photo i is present with its
      URL exactly when its fetch succeeded. */
  lemma PhotoEntry(photos: seq<Memory>, pok: seq<bool>, audios: seq<Memory>, aok: seq<bool>, i: nat)
    requires |pok| == |photos| && |aok| == |audios| && i < |photos|
    ensures var all := Entries(PhotoPrefix, photos, pok) + Entries(AudioPrefix, audios, aok);
      var name := EntryName(PhotoPrefix, i, photos[i].url);
      (pok[i] ==> name in all && all[name] == photos[i].url) && (!pok[i] ==> name !in all)
  {
    EntriesAt(PhotoPrefix, photos, pok, i);
    EntriesKeysHavePrefix(AudioPrefix, audios, aok);
    PrefixesExclusive(EntryName(PhotoPrefix, i, photos[i].url));
  }

  /** In the union of both categories' entries, audio j is present with its
      URL exactly when its fetch succeeded. */
  lemma AudioEntry(photos: seq<Memory>, audios: seq<Memory>, fetched: seq<bool>, j: nat)
    requires |fetched| == |photos| + |audios| && j < |audios|
    ensures var p := |photos|;
      var all := Entries(PhotoPrefix, photos, fetched[..p]) + Entries(AudioPrefix, audios, fetched[p..]);
      var name := EntryName(AudioPrefix, j, audios[j].url);
      (fetched[p + j] ==> name in all && all[name] == audios[j].url) && (!fetched[p + j] ==> name !in all)
  {
    var p := |photos|;
    EntriesAt(AudioPrefix, audios, fetched[p..], j);
    assert fetched[p..][j] == fetched[p + j];
    EntriesKeysHavePrefix(PhotoPrefix, photos, fetched[..p]);
    PrefixesExclusive(EntryName(AudioPrefix, j, audios[j].url));
  }

  /** No name starts with both category prefixes. */
  lemma PrefixesExclusive(key: string)
    ensures !(StartsWith(key, PhotoPrefix) && StartsWith(key, AudioPrefix))
  {
    if StartsWith(key, PhotoPrefix) {
      assert key[0] == 'f';
    }
  }

  lemma DisjointUnionSize(a: map<string, string>, b: map<string, string>)
    requires forall key :: key in a ==> key !in b
    ensures |a + b| == |a| + |b|
  {
    assert (a + b).Keys == a.Keys + b.Keys;
    assert a.Keys * b.Keys == {};
  }

  /** The photo entries and the audio entries share no name. */
  lemma CategoriesDisjoint(photos: seq<Memory>, pok: seq<bool>, audios: seq<Memory>, aok: seq<bool>)
    requires |pok| == |photos| && |aok| == |audios|
    ensures forall key :: key in Entries(PhotoPrefix, photos, pok) ==> key !in Entries(AudioPrefix, audios, aok)
  {
    EntriesKeysHavePrefix(PhotoPrefix, photos, pok);
    EntriesKeysHavePrefix(AudioPrefix, audios, aok);
    forall key | key in Entries(PhotoPrefix, photos, pok)
      ensures key !in Entries(AudioPrefix, audios, aok)
    {
      PrefixesExclusive(key);
    }
  }

  /** The archive has one entry per successful fetch, so at most one per
      memory. */
  lemma PlanSize(memories: seq<Memory>, fetched: seq<bool>)
    requires |fetched| == |memories|
    ensures |Plan(memories, fetched)| == Successes(fetched) <= |memories|
  {
    var photos := OfKind(memories, Photo);
    var audios := OfKind(memories, Audio);
    PartitionCount(memories);
    var p := |photos|;
    CategoriesSize(photos, fetched[..p], audios, fetched[p..]);
    SuccessesSplit(fetched, p);
  }

  /** The successes of a run of fetches cut anywhere add up. */
  lemma SuccessesSplit(ok: seq<bool>, p: nat)
    requires p <= |ok|
    ensures Successes(ok) == Successes(ok[..p]) + Successes(ok[p..])
  {
    SuccessesAppend(ok[..p], ok[p..]);
    assert ok[..p] + ok[p..] == ok;
  }

  /** The photo and audio entries together number the successes of both. */
  lemma CategoriesSize(photos: seq<Memory>, pok: seq<bool>, audios: seq<Memory>, aok: seq<bool>)
    requires |pok| == |photos| && |aok| == |audios|
    ensures |Entries(PhotoPrefix, photos, pok) + Entries(AudioPrefix, audios, aok)| == Successes(pok) + Successes(aok)
  {
    CategoriesDisjoint(photos, pok, audios, aok);
    DisjointUnionSize(Entries(PhotoPrefix, photos, pok), Entries(AudioPrefix, audios, aok));
    EntriesSize(PhotoPrefix, photos, pok);
    EntriesSize(AudioPrefix, audios, aok);
  }

  /** Adding an entry after a union is adding it to the right-hand map. */
  lemma UnionUpdate(a: map<string, string>, b: map<string, string>, k: string, v: string)
    ensures (a + b)[k := v] == a + b[k := v]
  {
  }

  /** The archive being filled: entry name to the URL whose contents were
      stored under it. */
  class Zip {
    var files: map<string, string>

    constructor ()
      ensures files == map[]
    {
      files := map[];
    }

    /** `zip.file(name, blob)`: adds an entry, replacing one with the same
        name. */
    method File(name: string, source: string)
      modifies this
      ensures files == old(files)[name := source]
    {
      files := files[name := source];
    }
  }

  /** `handleDownloadAll` up to the archive's generation: one fetch per
      photo, then one per audio recording; a failed fetch is skipped, and
      a successful one adds the item under its numbered name. */
  method DownloadAll(memories: seq<Memory>, fetched: seq<bool>) returns (zip: Zip)
    requires |fetched| == |memories|
    ensures fresh(zip)
    ensures zip.files == Plan(memories, fetched)
  {
    zip := new Zip();
    var photos := OfKind(memories, Photo);
    var audios := OfKind(memories, Audio);
    PartitionCount(memories);
    var p := |photos|;
    ghost var photoNames, photoUrls, photoOk := Names(PhotoPrefix, photos), Urls(photos), fetched[..p];
    for i := 0 to p
      invariant zip.files == Inserted(photoNames[..i], photoUrls[..i], photoOk[..i])
    {
      InsertedStep(photoNames, photoUrls, photoOk, i);
      if fetched[i] {
        zip.File(EntryName(PhotoPrefix, i, photos[i].url), photos[i].url);
      }
    }
    assert photoNames[..p] == photoNames && photoUrls[..p] == photoUrls && photoOk[..p] == photoOk;
    ghost var photoEntries := zip.files;
    ghost var audioNames, audioUrls, audioOk := Names(AudioPrefix, audios), Urls(audios), fetched[p..];
    for j := 0 to |audios|
      invariant zip.files == photoEntries + Inserted(audioNames[..j], audioUrls[..j], audioOk[..j])
    {
      InsertedStep(audioNames, audioUrls, audioOk, j);
      if fetched[p + j] {
        UnionUpdate(photoEntries, Inserted(audioNames[..j], audioUrls[..j], audioOk[..j]), audioNames[j], audioUrls[j]);
        zip.File(EntryName(AudioPrefix, j, audios[j].url), audios[j].url);
      }
    }
    assert audioNames[..|audios|] == audioNames && audioUrls[..|audios|] == audioUrls;
    assert audioOk[..|audios|] == audioOk;
  }
}
