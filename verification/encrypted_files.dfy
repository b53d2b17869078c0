/** The pure parts of the `EncryptedFilesList` component: searching,
    filtering and sorting the list, the distinct type menu, the name a
    decrypted download is saved under, and the decrypt handler's guards,
    dispatch and treatment of expired sessions. The network calls are
    parameters: a request either yields the decrypted blob or fails with
    a message. */
module EncryptedFiles {
  import opened Outcomes
  import opened Strings
  import opened Sorting

  /** A stored file as listed by the server. `createdAt` is the creation
      time already parsed to milliseconds. */
  datatype FileItem = FileItem(id: string, fileName: string, contentType: string, fileSize: nat, createdAt: int)

  datatype SortOrder = Newest | Oldest | ByName | BySize

  /** Whether a file passes the search box and the type menu: a search
      text overrides the type; with neither, every file passes. `lower` is
      the engine's `toLowerCase`, a parameter here because its Unicode case
      mapping is not modelled; `Strings.ToLower` is its ASCII part. */
  predicate Keeps(f: FileItem, query: string, filterType: Option<string>, lower: string -> string) {
    if query != "" then Contains(lower(f.fileName), lower(query))
    else if filterType.Some? && filterType.value != "" then StartsWith(f.contentType, filterType.value)
    else true
  }

  /** `files.filter(...)`: the files that pass, in list order. */
  function FilterFiles(files: seq<FileItem>, query: string, filterType: Option<string>,
                       lower: string -> string): (r: seq<FileItem>)
    ensures |r| <= |files|
    ensures forall f :: f in r <==> f in files && Keeps(f, query, filterType, lower)
  {
    if files == [] then []
    else
      var rest := FilterFiles(files[1..], query, filterType, lower);
      assert forall f :: f in files <==> f == files[0] || f in files[1..];
      if Keeps(files[0], query, filterType, lower) then [files[0]] + rest else rest
  }

  /** The filter keeps list order: filtering a concatenation filters each
      part and concatenates the results. */
  lemma {:induction false} FilterFilesAppend(a: seq<FileItem>, b: seq<FileItem>, query: string,
                                             filterType: Option<string>, lower: string -> string)
    ensures FilterFiles(a + b, query, filterType, lower)
         == FilterFiles(a, query, filterType, lower) + FilterFiles(b, query, filterType, lower)
  {
    if a != [] {
      assert (a + b)[1..] == a[1..] + b;
      FilterFilesAppend(a[1..], b, query, filterType, lower);
    } else {
      assert a + b == b;
    }
  }

  /** While there is a search text the type menu has no effect; with
      neither, nothing is filtered out. */
  lemma {:induction false} FilterPrecedence(files: seq<FileItem>, query: string, filterType: Option<string>,
                                            lower: string -> string)
    ensures query != "" ==> FilterFiles(files, query, filterType, lower) == FilterFiles(files, query, None, lower)
    ensures query == "" && (filterType.None? || filterType == Some("")) ==> FilterFiles(files, query, filterType, lower) == files
  {
    if files != [] {
      FilterPrecedence(files[1..], query, filterType, lower);
      assert files == [files[0]] + files[1..];
    }
  }

  /** Two search texts that lower-case alike select the same files. */
  lemma {:induction false} SameLowerSameFiles(files: seq<FileItem>, q1: string, q2: string,
                                              filterType: Option<string>, lower: string -> string)
    requires q1 != "" && q2 != "" && lower(q1) == lower(q2)
    ensures FilterFiles(files, q1, filterType, lower) == FilterFiles(files, q2, filterType, lower)
  {
    if files != [] {
      SameLowerSameFiles(files[1..], q1, q2, filterType, lower);
    }
  }

  /** The search ignores case: for any lower-casing that first folding
      ASCII letters does not change (`toLowerCase` is one), a search text
      and its ASCII lower-case form select the same files, and so do any
      two texts that differ only in the case of ASCII letters. */
  lemma SearchIgnoresCase(files: seq<FileItem>, q1: string, q2: string,
                          filterType: Option<string>, lower: string -> string)
    requires forall s :: lower(ToLower(s)) == lower(s)
    requires q1 != "" && q2 != ""
    ensures FilterFiles(files, q1, filterType, lower) == FilterFiles(files, ToLower(q1), filterType, lower)
    ensures ToLower(q1) == ToLower(q2) ==>
      FilterFiles(files, q1, filterType, lower) == FilterFiles(files, q2, filterType, lower)
  {
    assert lower(ToLower(q1)) == lower(q1);
    SameLowerSameFiles(files, q1, ToLower(q1), filterType, lower);
    if ToLower(q1) == ToLower(q2) {
      assert lower(ToLower(q2)) == lower(q2);
      SameLowerSameFiles(files, q1, q2, filterType, lower);
    }
  }

  /** The comparator of each order, as the key it compares: newest and
      largest first, oldest first, or by the collation order of the
      names (`localeCompare`, a parameter here). */
  function SortKey(order: SortOrder, collate: string -> int): FileItem -> int {
    match order
    case Newest => (f: FileItem) => -f.createdAt
    case Oldest => (f: FileItem) => f.createdAt
    case ByName => (f: FileItem) => collate(f.fileName)
    case BySize => (f: FileItem) => -(f.fileSize as int)
  }

  /** `.sort(...)` after the filter: a permutation of its input in the
      chosen order. */
  function SortFiles(files: seq<FileItem>, order: SortOrder, collate: string -> int): (r: seq<FileItem>)
    ensures multiset(r) == multiset(files)
    ensures order == Newest ==> forall i, j :: 0 <= i < j < |r| ==> r[i].createdAt >= r[j].createdAt
    ensures order == Oldest ==> forall i, j :: 0 <= i < j < |r| ==> r[i].createdAt <= r[j].createdAt
    ensures order == BySize ==> forall i, j :: 0 <= i < j < |r| ==> r[i].fileSize >= r[j].fileSize
    ensures order == ByName ==> forall i, j :: 0 <= i < j < |r| ==> collate(r[i].fileName) <= collate(r[j].fileName)
    ensures forall v :: WithKey(r, SortKey(order, collate), v) == WithKey(files, SortKey(order, collate), v)
  {
    var key := SortKey(order, collate);
    var r := SortBy(files, key);
    SortByStable(files, key);
    assert forall i, j :: 0 <= i < j < |r| ==> key(r[i]) <= key(r[j]);
    r
  }

  /** `filteredAndSortedFiles`. */
  function ShownFiles(files: seq<FileItem>, query: string, filterType: Option<string>,
                      order: SortOrder, lower: string -> string, collate: string -> int): (r: seq<FileItem>)
    ensures forall f :: f in r <==> f in files && Keeps(f, query, filterType, lower)
    ensures forall v :: WithKey(r, SortKey(order, collate), v)
                     == WithKey(FilterFiles(files, query, filterType, lower), SortKey(order, collate), v)
  {
    var kept := FilterFiles(files, query, filterType, lower);
    var r := SortFiles(kept, order, collate);
    assert forall f :: f in r <==> f in multiset(r);
    r
  }

  /** The menu entry of a file: its content type up to the first `/`,
      then `/`. */
  function TypeOf(f: FileItem): string {
    BeforeFirst(f.contentType, '/') + "/"
  }

  /** A menu entry ends in its only `/` and is a prefix of the content
      type, up to that `/`. */
  lemma TypeOfShape(f: FileItem)
    ensures var t := TypeOf(f);
      |t| >= 1 && t[|t| - 1] == '/' && '/' !in t[..|t| - 1] && StartsWith(f.contentType, t[..|t| - 1])
  {
    var head := BeforeFirst(f.contentType, '/');
    assert TypeOf(f)[..|TypeOf(f)| - 1] == head;
  }

  /** `[...new Set(s)]`: the first occurrence of each value, in order. */
  function Distinct(s: seq<string>): (r: seq<string>)
    ensures forall i, j :: 0 <= i < j < |r| ==> r[i] != r[j]
    ensures forall x :: x in r <==> x in s
  {
    if s == [] then []
    else
      var init, last := s[..|s| - 1], s[|s| - 1];
      var r := Distinct(init);
      assert s == init + [last];
      if last in r then r else r + [last]
  }

  /** The position of the first `x` in `s`. */
  function FirstIndex(s: seq<string>, x: string): (k: nat)
    requires x in s
    ensures k < |s| && s[k] == x && x !in s[..k]
  {
    if s[0] == x then 0
    else
      assert x in s[1..];
      var k := 1 + FirstIndex(s[1..], x);
      assert s[..k] == [s[0]] + s[1..][..k - 1];
      k
  }

  lemma FirstIndexAt(s: seq<string>, x: string, k: nat)
    requires k < |s| && s[k] == x && x !in s[..k]
    ensures FirstIndex(s, x) == k
  {
    if k > 0 {
      assert s[0] == s[..k][0];
      assert s[1..][..k - 1] == s[..k][1..];
      FirstIndexAt(s[1..], x, k - 1);
    }
  }

  /** The menu keeps the values in the order of their first occurrence. */
  lemma {:induction false} DistinctFirstOccurrence(s: seq<string>)
    ensures forall i, j :: 0 <= i < j < |Distinct(s)| ==> FirstIndex(s, Distinct(s)[i]) < FirstIndex(s, Distinct(s)[j])
    decreases |s|
  {
    if s != [] {
      var init, last := s[..|s| - 1], s[|s| - 1];
      var r0 := Distinct(init);
      DistinctFirstOccurrence(init);
      assert s == init + [last];
      forall x | x in init ensures FirstIndex(s, x) == FirstIndex(init, x) {
        var k := FirstIndex(init, x);
        assert s[..k] == init[..k];
        FirstIndexAt(s, x, k);
      }
      var r := Distinct(s);
      if last !in r0 {
        assert last !in init;
        assert s[..|init|] == init;
        FirstIndexAt(s, last, |init|);
        assert r == r0 + [last];
        forall i, j | 0 <= i < j < |r| ensures FirstIndex(s, r[i]) < FirstIndex(s, r[j]) {
          assert r[i] == r0[i] && r0[i] in r0 && r[i] in init;
          if j < |r0| {
            assert r[j] == r0[j] && r0[j] in r0 && r[j] in init;
            assert FirstIndex(init, r0[i]) < FirstIndex(init, r0[j]);
          }
        }
      } else {
        assert r == r0;
        forall i, j | 0 <= i < j < |r| ensures FirstIndex(s, r[i]) < FirstIndex(s, r[j]) {
          assert r0[i] in r0 && r0[j] in r0;
          assert r[i] in init && r[j] in init;
          assert FirstIndex(init, r0[i]) < FirstIndex(init, r0[j]);
        }
      }
    }
  }

  /** `fileTypes`. */
  function FileTypes(files: seq<FileItem>): (types: seq<string>)
    ensures forall i, j :: 0 <= i < j < |types| ==> types[i] != types[j]
    ensures forall t :: t in types <==> exists f :: f in files && TypeOf(f) == t
  {
    var all := seq(|files|, i requires 0 <= i < |files| => TypeOf(files[i]));
    forall t | t in all ensures exists f :: f in files && TypeOf(f) == t {
      var i :| 0 <= i < |all| && all[i] == t;
      assert files[i] in files;
    }
    forall f | f in files ensures TypeOf(f) in all {
      var i :| 0 <= i < |files| && files[i] == f;
      assert all[i] == TypeOf(f);
    }
    Distinct(all)
  }

  /** For a file whose content type has a `/`, the type filter selects it
      exactly when its own menu entry is the one chosen. */
  lemma TypeFilterMatchesEntry(f: FileItem, t: string)
    requires '/' in f.contentType
    requires |t| >= 1 && t[|t| - 1] == '/' && '/' !in t[..|t| - 1]
    ensures StartsWith(f.contentType, t) <==> TypeOf(f) == t
  {
    var head := BeforeFirst(f.contentType, '/');
    var n := |t| - 1;
    TypeOfShape(f);
    if StartsWith(f.contentType, t) {
      assert f.contentType[n] == '/';
      forall i | 0 <= i < n ensures f.contentType[i] != '/' {
        assert f.contentType[i] == t[..n][i];
      }
      BeforeFirstAt(f.contentType, '/', n);
      assert head == t[..n];
      assert head + "/" == t;
    }
    if TypeOf(f) == t {
      assert |head| < |f.contentType|;
      assert f.contentType[..|t|] == head + [f.contentType[|head|]];
    }
  }

  /** Picking a menu entry lists exactly the files of that type, so never
      nothing, when every content type has a `/`. */
  lemma FilterByListedType(files: seq<FileItem>, t: string, lower: string -> string)
    requires t in FileTypes(files)
    requires forall f :: f in files ==> '/' in f.contentType
    ensures forall f :: f in FilterFiles(files, "", Some(t), lower) <==> f in files && TypeOf(f) == t
    ensures FilterFiles(files, "", Some(t), lower) != []
  {
    var g :| g in files && TypeOf(g) == t;
    forall f | f in files ensures Keeps(f, "", Some(t), lower) <==> TypeOf(f) == t {
      KeepsListedType(f, g, t, lower);
    }
    assert g in FilterFiles(files, "", Some(t), lower);
  }

  /** The type filter set to the entry `t` of some file `g` keeps `f`
      exactly when `f` has the same entry. */
  lemma KeepsListedType(f: FileItem, g: FileItem, t: string, lower: string -> string)
    requires '/' in f.contentType && TypeOf(g) == t
    ensures Keeps(f, "", Some(t), lower) <==> TypeOf(f) == t
  {
    TypeOfShape(g);
    TypeFilterMatchesEntry(f, t);
  }

  /** The text `replace(/_encrypted(?=\.[^.]+$|$)/, ...)` looks for, and
      what it puts in its place. */
  const Marker: string := "_encrypted"
  const Replacement: string := "_decrypted"

  /** What may follow the marker: nothing, or a final `.ext` with no further dot. */
  predicate FinalExtensionOrEnd(rest: string) {
    rest == [] || (|rest| >= 2 && rest[0] == '.' && forall j :: 1 <= j < |rest| ==> rest[j] != '.')
  }

  /** The pattern matches at `i`. */
  predicate MarkerAt(name: string, i: int) {
    0 <= i && i + |Marker| <= |name| && name[i..i + |Marker|] == Marker
      && FinalExtensionOrEnd(name[i + |Marker|..])
  }

  /** The leftmost match at or after `from`, or `|name|`. */
  function FirstMarker(name: string, from: nat): (k: nat)
    requires from <= |name|
    ensures from <= k <= |name|
    ensures k < |name| ==> MarkerAt(name, k)
    ensures forall j :: from <= j < k ==> !MarkerAt(name, j)
    ensures k == |name| ==> forall j :: from <= j ==> !MarkerAt(name, j)
    decreases |name| - from
  {
    if from == |name| then from
    else if MarkerAt(name, from) then from
    else FirstMarker(name, from + 1)
  }

  /** The name a decrypted non-media file is saved under: the leftmost
      `_encrypted` that ends the name or precedes its final extension
      becomes `_decrypted`; other names are kept. */
  function DecryptedName(name: string): (r: string)
    ensures |r| == |name|
    ensures (forall i :: !MarkerAt(name, i)) ==> r == name
    ensures forall k :: MarkerAt(name, k) && (forall j :: 0 <= j < k ==> !MarkerAt(name, j)) ==>
      r == name[..k] + Replacement + name[k + |Marker|..]
  {
    var k := FirstMarker(name, 0);
    if k < |name| then name[..k] + Replacement + name[k + |Marker|..] else name
  }

  /** The rename changes the name exactly when the pattern matches, and
      writing `_encrypted` back at the match restores the original. */
  lemma DecryptedNameRoundTrip(name: string)
    ensures DecryptedName(name) != name <==> exists i :: MarkerAt(name, i)
    ensures forall k :: MarkerAt(name, k) && (forall j :: 0 <= j < k ==> !MarkerAt(name, j)) ==>
      DecryptedName(name)[..k] + Marker + DecryptedName(name)[k + |Marker|..] == name
  {
    var k := FirstMarker(name, 0);
    if k < |name| {
      ReplaceAtRestores(name, k);
    }
  }

  /** Writing `_decrypted` over a match changes the name, and writing
      `_encrypted` back restores it. */
  lemma ReplaceAtRestores(name: string, k: nat)
    requires MarkerAt(name, k)
    ensures var r := name[..k] + Replacement + name[k + |Marker|..];
      r != name && r[..k] + Marker + r[k + |Marker|..] == name
  {
    var r := name[..k] + Replacement + name[k + |Marker|..];
    assert r[k + 1] == Replacement[1] != Marker[1] == name[k + 1];
    assert r[..k] == name[..k];
    assert r[k + |Marker|..] == name[k + |Marker|..];
    assert name == name[..k] + name[k..k + |Marker|] + name[k + |Marker|..];
  }

  datatype PreviewKind = VideoPreview | ImagePreview

  /** The component's state that the decrypt handler reads and writes.
      `storage` is the set of `localStorage` keys present. */
  datatype ListState = ListState(
    authenticated: bool,
    storage: set<string>,
    key: string,
    selected: Option<string>,
    error: Option<string>,
    success: Option<string>,
    preview: Option<PreviewKind>,
    decrypting: Option<string>)

  const AuthFlag: string := "isAuthenticated"
  const TokenKey: string := "token"

  const LoginToDecrypt: string := "Please log in to decrypt files."
  const EnterKey: string := "Please enter a decryption key"
  const SessionExpired: string := "Your session has expired. Please log in again."
  const NotFound: string := "File not found"
  const PreviewShown: string := "File decrypted successfully. Preview displayed."

  /** An error from the server that means the session is no longer valid. */
  predicate IsAuthError(message: string) {
    Contains(message, "401") || Contains(message, "Unauthorized")
  }

  /** `handleAuthError`: both storage keys are removed and the user is
      logged out. */
  function Logout(s: ListState): (t: ListState)
    ensures !t.authenticated && AuthFlag !in t.storage && TokenKey !in t.storage
    ensures t.storage == s.storage - {AuthFlag, TokenKey}
    ensures t.error == Some(SessionExpired)
  {
    s.(storage := s.storage - {AuthFlag, TokenKey}, authenticated := false, error := Some(SessionExpired))
  }

  /** The `catch` shared by loading, downloading and decrypting: an
      authorisation failure logs out, any other shows its message. */
  function Failure(s: ListState, message: string): (t: ListState)
    ensures IsAuthError(message) ==> t == Logout(s)
    ensures !IsAuthError(message) ==> t == s.(error := Some(message))
  {
    if IsAuthError(message) then Logout(s) else s.(error := Some(message))
  }

  /** The raw text of an authorisation failure is never shown. */
  lemma AuthFailureHidesMessage(s: ListState, message: string)
    requires IsAuthError(message)
    ensures Failure(s, message).error == Some(SessionExpired)
    ensures !Failure(s, message).authenticated
  {
  }

  /** The outcome of `handleDecrypt`: the new state, whether the request
      was sent, and the name of the file saved, if one was. */
  datatype DecryptRun = DecryptRun(state: ListState, requested: bool, saved: Option<string>)

  /** `files.find(f => f.id === id)`: the first listed file with that id. */
  function FindFile(files: seq<FileItem>, id: string): (r: Option<FileItem>)
    ensures r.Some? ==> r.value in files && r.value.id == id
    ensures r.Some? ==> exists k :: 0 <= k < |files| && files[k] == r.value && forall j :: 0 <= j < k ==> files[j].id != id
    ensures r.None? ==> forall f :: f in files ==> f.id != id
  {
    if files == [] then None
    else if files[0].id == id then Some(files[0])
    else
      var r := FindFile(files[1..], id);
      assert r.Some? ==> exists k :: 0 <= k < |files| && files[k] == r.value && forall j :: 0 <= j < k ==> files[j].id != id by {
        if r.Some? {
          var k :| 0 <= k < |files[1..]| && files[1..][k] == r.value && forall j :: 0 <= j < k ==> files[1..][j].id != id;
          assert files[k + 1] == r.value && forall j :: 0 <= j < k + 1 ==> files[j].id != id;
        }
      }
      r
  }

  /** `handleDecrypt(id)` with `service` standing for the request: the
      decrypted blob's size, or the message it failed with. */
  function Decrypt(s: ListState, files: seq<FileItem>, id: string, service: Result<nat>): DecryptRun {
    if !s.authenticated then DecryptRun(s.(error := Some(LoginToDecrypt)), false, None)
    else if s.key == "" then DecryptRun(s.(error := Some(EnterKey)), false, None)
    else
      var started := s.(decrypting := Some(id), error := None, preview := None);
      match FindFile(files, id)
      case None => DecryptRun(Failure(started, NotFound).(decrypting := None), false, None)
      case Some(f) =>
        match service
        case Err(m) => DecryptRun(Failure(started, m).(decrypting := None), true, None)
        case Ok(_) =>
          var done := started.(key := "", selected := None, decrypting := None);
          if StartsWith(f.contentType, "video/") then
            DecryptRun(done.(preview := Some(VideoPreview), success := Some(PreviewShown)), true, None)
          else if StartsWith(f.contentType, "image/") then
            DecryptRun(done.(preview := Some(ImagePreview), success := Some(PreviewShown)), true, None)
          else
            var name := DecryptedName(f.fileName);
            DecryptRun(done.(success := Some(name + " decrypted and downloaded")), true, Some(name))
  }

  /** The guards come first, in order, and neither sends a request or
      changes anything but the error; a request is sent exactly when both
      pass and the file is listed. */
  lemma DecryptGuards(s: ListState, files: seq<FileItem>, id: string, service: Result<nat>)
    ensures !s.authenticated ==> Decrypt(s, files, id, service) == DecryptRun(s.(error := Some(LoginToDecrypt)), false, None)
    ensures s.authenticated && s.key == "" ==>
      Decrypt(s, files, id, service) == DecryptRun(s.(error := Some(EnterKey)), false, None)
    ensures Decrypt(s, files, id, service).requested <==>
      s.authenticated && s.key != "" && exists f :: f in files && f.id == id
    ensures Decrypt(s, files, id, service).state.decrypting == (if s.authenticated && s.key != "" then None else s.decrypting)
  {
  }

  /** A successful request previews videos and images and saves anything
      else under its decrypted name; either way the key and the selection
      are cleared. */
  lemma DecryptDispatch(s: ListState, files: seq<FileItem>, id: string, size: nat, f: FileItem)
    requires s.authenticated && s.key != "" && FindFile(files, id) == Some(f)
    ensures var run := Decrypt(s, files, id, Ok(size));
      && run.requested && run.state.key == "" && run.state.selected.None? && run.state.error.None?
      && (StartsWith(f.contentType, "video/") ==> run.state.preview == Some(VideoPreview) && run.saved.None?)
      && (!StartsWith(f.contentType, "video/") && StartsWith(f.contentType, "image/") ==>
            run.state.preview == Some(ImagePreview) && run.saved.None?)
      && (!StartsWith(f.contentType, "video/") && !StartsWith(f.contentType, "image/") ==>
            run.state.preview.None? && run.saved == Some(DecryptedName(f.fileName)))
  {
  }

  /** A failed request keeps the key and the selection; an authorisation
      failure logs out instead of showing its message. */
  lemma DecryptFailure(s: ListState, files: seq<FileItem>, id: string, message: string)
    requires s.authenticated && s.key != ""
    ensures var run := Decrypt(s, files, id, Err(message));
      && run.state.key == s.key && run.state.selected == s.selected && run.saved.None?
      && run.state.decrypting.None?
      && (FindFile(files, id).Some? && IsAuthError(message) ==>
            !run.state.authenticated && run.state.error == Some(SessionExpired)
            && AuthFlag !in run.state.storage && TokenKey !in run.state.storage)
      && (FindFile(files, id).Some? && !IsAuthError(message) ==>
            run.state.authenticated && run.state.error == Some(message))
  {
  }
}
