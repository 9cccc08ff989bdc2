/** The blog service: the paged list of posts with author names, one post with
    its `images` column normalised, the create and update writes, the upload of
    images under generated keys, the removal of images named by their public
    URLs, and the deletion of a post together with its comments' images. */
module BlogService {
  import opened Wrappers
  import opened Seqs
  import opened Text
  import opened Backend
  import Listing

  // ---------------------------------------------------------------- reading

  /** A post of the list, with the name of its author. */
  datatype BlogView = BlogView(row: BlogRow, authorName: string)

  /** One page of the list and the number of posts in the table. */
  datatype BlogList = BlogList(data: seq<BlogView>, count: Option<nat>)

  /** A single post: the row, its author's name (`null` when unknown) and the
      `images` column read as JSON. */
  datatype BlogDetail = BlogDetail(row: BlogRow, authorName: Option<string>, images: Json)

  /** Page `page` of all posts, newest first, each with its author's name. */
  function FetchBlogs(st: Store, page: int, pageSize: int): (r: Result<BlogList>)
    ensures var w := Listing.Window(page, pageSize);
      var q := ReadBlogs(st, None, w.0, w.1);
      && (r.Err? <==> q.Err?)
      && (r.Err? ==> r.message == q.message)
      && (r.Ok? ==> r.value.count == q.value.count && |r.value.data| == |q.value.rows|)
      && (r.Ok? ==> forall i :: 0 <= i < |r.value.data| ==>
            r.value.data[i].row == q.value.rows[i]
            && r.value.data[i].authorName == AuthorName(st, q.value.rows[i].authorId))
  {
    var w := Listing.Window(page, pageSize);
    match ReadBlogs(st, None, w.0, w.1)
    case Err(m) => Err(m)
    case Ok(p) =>
      Ok(BlogList(seq(|p.rows|, i requires 0 <= i < |p.rows| => BlogView(p.rows[i], AuthorName(st, p.rows[i].authorId))),
                  p.count))
  }

  /** What a page of the list holds when the store accepts the query: at most
      `pageSize` posts of the table, newest first, a full page whenever enough
      posts follow the window's start, and the count of all posts. */
  lemma FetchBlogsPage(st: Store, page: int, pageSize: int)
    requires page >= 1 && pageSize >= 1
    requires SelectBlogs(None, (page - 1) * pageSize, (page - 1) * pageSize + pageSize - 1) !in st.faults
    ensures var r := FetchBlogs(st, page, pageSize);
      && r.Ok?
      && r.value.count == Some(|st.blogs|)
      && |r.value.data| <= pageSize
      && (forall v :: v in r.value.data ==> v.row in st.blogs)
      && (forall i, j :: 0 <= i < j < |r.value.data| ==> r.value.data[i].row.createdAt >= r.value.data[j].row.createdAt)
      && ((page - 1) * pageSize < |st.blogs| ==>
            |r.value.data| == Min(pageSize, |st.blogs| - (page - 1) * pageSize))
  {
    var w := Listing.Window(page, pageSize);
    assert w.0 == (page - 1) * pageSize;
    assert 0 <= w.0 by {
      assert (page - 1) * pageSize >= 0;
    }
    var r := FetchBlogs(st, page, pageSize);
    var q := ReadBlogs(st, None, w.0, w.1);
    assert ByAuthor(st.blogs, None) == st.blogs;
    forall v | v in r.value.data ensures v.row in st.blogs {
      var i :| 0 <= i < |r.value.data| && r.value.data[i] == v;
      assert q.value.rows[i] in q.value.rows;
    }
  }

  /** Which posts a page holds: the posts in newest-first order, from the
      window's start on. */
  lemma FetchBlogsPageRows(st: Store, page: int, pageSize: int)
    requires page >= 1 && pageSize >= 1
    requires SelectBlogs(None, (page - 1) * pageSize, (page - 1) * pageSize + pageSize - 1) !in st.faults
    ensures var r := FetchBlogs(st, page, pageSize);
      && r.Ok?
      && forall i :: 0 <= i < |r.value.data| ==>
           (page - 1) * pageSize + i < |NewestFirst(st.blogs)|
           && r.value.data[i].row == NewestFirst(st.blogs)[(page - 1) * pageSize + i]
  {
    var w := Listing.Window(page, pageSize);
    assert w.0 == (page - 1) * pageSize && w.1 == (page - 1) * pageSize + pageSize - 1;
    assert 0 <= w.0 by {
      assert (page - 1) * pageSize >= 0;
    }
    ReadBlogsRows(st, None, w.0, w.1);
    assert ByAuthor(st.blogs, None) == st.blogs;
  }

  /** Every post is listed: the post at position `q * pageSize + m` of the
      newest-first order is at position `m` of page `q + 1`. */
  lemma PostOnItsPage(st: Store, q: nat, m: nat, pageSize: nat)
    requires m < pageSize && q * pageSize + m < |st.blogs|
    requires SelectBlogs(None, q * pageSize, q * pageSize + pageSize - 1) !in st.faults
    ensures var r := FetchBlogs(st, q + 1, pageSize);
      && r.Ok?
      && m < |r.value.data|
      && r.value.data[m].row == NewestFirst(st.blogs)[q * pageSize + m]
  {
    var start := q * pageSize;
    assert (q + 1 - 1) * pageSize == start;
    FetchBlogsPage(st, q + 1, pageSize);
    FetchBlogsPageRows(st, q + 1, pageSize);
  }

  /** `fetchBlogById`: the one row with that id and its author's name; the
      `images` column is kept when it is an array, parsed when it is a
      non-empty string (an empty array when parsing fails), and read as an
      empty array otherwise. */
  method FetchBlogById(st: Store, id: string, parse: string -> Option<Json>) returns (r: Result<BlogDetail>)
    ensures r.Err? <==> ReadBlog(st, id).Err?
    ensures r.Err? ==> r.message == ReadBlog(st, id).message
    ensures r.Ok? ==> r.value.row == ReadBlog(st, id).value
    ensures r.Ok? ==> r.value.authorName == JoinedName(st, r.value.row.authorId)
    ensures r.Ok? ==> var stored := r.value.row.images;
      && (stored.JArray? ==> r.value.images == stored)
      && (stored.JString? && stored.text != "" && parse(stored.text).Some? ==>
            r.value.images == parse(stored.text).value)
      && (!stored.JArray? && !(stored.JString? && stored.text != "" && parse(stored.text).Some?) ==>
            r.value.images == JArray([]))
  {
    var read := ReadBlog(st, id);
    if read.Err? {
      return Err(read.message);
    }
    var data := read.value;
    var images := JArray([]);
    if Truthy(data.images) {
      if data.images.JArray? {
        images := data.images;
      } else if data.images.JString? {
        match parse(data.images.text)
        case Some(v) => images := v;
        case None => images := JArray([]);
      }
    }
    r := Ok(BlogDetail(data, JoinedName(st, data.authorId), images));
  }

  // ---------------------------------------------------------------- writing

  /** The row `createBlog` inserts: an omitted image list is stored as `null`. */
  function NewBlogRow(id: string, now: int, title: string, content: string, userId: string,
                      images: Option<seq<string>>): (b: BlogRow)
    ensures b.id == id && b.title == title && b.content == content && b.authorId == userId
    ensures b.images.JNull? <==> images.None?
    ensures images.Some? ==> b.images == JArray(images.value)
    ensures b.createdAt == now && b.updatedAt.None?
  {
    BlogRow(id, title, content, userId, if images.Some? then JArray(images.value) else JNull, now, None)
  }

  /** `createBlog`: inserts one row; the row's id and creation time are the
      database's defaults, given here as `id` and `now`. */
  function CreateBlog(st: Store, id: string, now: int, title: string, content: string, userId: string,
                      images: Option<seq<string>>): (r: (Store, Result<()>))
    ensures r.0.sent == st.sent + [InsertBlogRow(NewBlogRow(id, now, title, content, userId, images))]
    ensures r.1.Err? <==> InsertBlogRow(NewBlogRow(id, now, title, content, userId, images)) in st.faults
    ensures r.1.Ok? ==> r.0.blogs == st.blogs + [NewBlogRow(id, now, title, content, userId, images)]
    ensures r.1.Err? ==> r.0.blogs == st.blogs
    ensures r.0.comments == st.comments && r.0.objects == st.objects && r.0.profiles == st.profiles
  {
    Execute(st, InsertBlogRow(NewBlogRow(id, now, title, content, userId, images)))
  }

  /** `updateBlog`: sets title, content and `updated_at` on every row with the
      id, and replaces the images only when a list is given. A match of no row
      is not an error. */
  function UpdateBlog(st: Store, id: string, title: string, content: string, images: Option<seq<string>>,
                      now: int): (r: (Store, Result<()>))
    ensures r.1.Err? <==> UpdateBlogRows(id, BlogPatch(title, content, images, now)) in st.faults
    ensures |r.0.blogs| == |st.blogs|
    ensures r.1.Err? ==> r.0.blogs == st.blogs
    ensures r.1.Ok? ==> forall i :: 0 <= i < |st.blogs| && st.blogs[i].id != id ==> r.0.blogs[i] == st.blogs[i]
    ensures r.1.Ok? ==> forall i :: 0 <= i < |st.blogs| && st.blogs[i].id == id ==>
      var b := r.0.blogs[i];
      && b.id == id && b.authorId == st.blogs[i].authorId && b.createdAt == st.blogs[i].createdAt
      && b.title == title && b.content == content && b.updatedAt == Some(now)
      && b.images == if images.Some? then JArray(images.value) else st.blogs[i].images
    ensures r.0.comments == st.comments && r.0.objects == st.objects && r.0.profiles == st.profiles
  {
    Execute(st, UpdateBlogRows(id, BlogPatch(title, content, images, now)))
  }

  // ---------------------------------------------------------------- storage keys and URLs

  /** The bucket name as it appears in a public URL, between the base and the key. */
  const Marker := "/blog-images/"

  /** `getPublicUrl(key)`: the public URL of an object of the bucket. */
  function PublicUrl(base: string, key: string): string
  {
    base + Marker + key
  }

  function PublicUrls(base: string, keys: seq<string>): (urls: seq<string>)
    ensures |urls| == |keys|
    ensures forall j :: 0 <= j < |keys| ==> urls[j] == PublicUrl(base, keys[j])
  {
    seq(|keys|, j requires 0 <= j < |keys| => PublicUrl(base, keys[j]))
  }

  /** The key of an uploaded image: `userId/uuid.ext`, where `ext` is the text
      after the last dot of the file name (the whole name when it has none). */
  function ObjectKey(userId: string, uuid: string, fileName: string): (k: string)
    ensures var ext := LastPiece(fileName, ".");
      && |k| == |userId| + 1 + |uuid| + 1 + |ext|
      && k[..|userId| + 1] == userId + "/"
      && k[|userId| + 1..|userId| + 1 + |uuid|] == uuid
      && k[|k| - |ext| - 1..] == "." + ext
  {
    userId + "/" + uuid + "." + LastPiece(fileName, ".")
  }

  function ObjectKeys(userId: string, uuids: seq<string>, fileNames: seq<string>): (keys: seq<string>)
    requires |uuids| == |fileNames|
    ensures |keys| == |fileNames|
    ensures forall j :: 0 <= j < |keys| ==> keys[j] == ObjectKey(userId, uuids[j], fileNames[j])
  {
    seq(|fileNames|, j requires 0 <= j < |fileNames| => ObjectKey(userId, uuids[j], fileNames[j]))
  }

  predicate NoSlash(s: string)
  {
    forall j :: 0 <= j < |s| ==> s[j] != '/'
  }

  /** A base URL under which the marker first appears where the bucket name
      starts (the base itself does not end in `/blog-images`, nor hold it). */
  predicate ValidBase(base: string)
  {
    forall k: nat :: k < |base| ==> !OccursAt(base + Marker, Marker, k)
  }

  /** `url.split('/blog-images/')[1]`, dropped when missing or empty: the text
      between the first occurrence of the marker and the next one (or the end). */
  function StoragePath(url: string): (r: Option<string>)
    ensures r.None? <==>
      || !Contains(url, Marker)
      || (var i := Find(url, Marker).value + |Marker|; i == |url| || OccursAt(url, Marker, i))
    ensures r.Some? ==> r.value != "" && !Contains(r.value, Marker)
    ensures r.Some? ==>
      var i := Find(url, Marker).value + |Marker|;
      && i + |r.value| <= |url| && url[i..i + |r.value|] == r.value
      && (i + |r.value| == |url| || OccursAt(url, Marker, i + |r.value|))
  {
    match Find(url, Marker)
    case None => None
    case Some(f) =>
      assert Contains(url, Marker);
      var piece := PieceAfter(url, Marker, f + |Marker|);
      if piece == "" then None else Some(piece)
  }

  /** The key is the second piece of splitting the URL at the marker, as the
      source computes it, kept when present and non-empty. */
  lemma StoragePathIsSecondPiece(url: string)
    ensures var parts := Split(url, Marker);
      StoragePath(url) == if |parts| > 1 && parts[1] != "" then Some(parts[1]) else None
  {
    if Find(url, Marker).Some? {
      SecondPiece(url, Marker);
    } else {
      NoSepOnePiece(url, Marker);
    }
  }

  /** A public URL of the bucket gives back the key it was made from. */
  lemma UrlRoundTrip(base: string, key: string)
    requires ValidBase(base)
    requires key != "" && !Contains(key, Marker)
    ensures StoragePath(PublicUrl(base, key)) == Some(key)
  {
    var url := PublicUrl(base, key);
    forall k: nat | k < |base| ensures !OccursAt(url, Marker, k) {
      assert !OccursAt(base + Marker, Marker, k);
      assert url[k..k + |Marker|] == (base + Marker)[k..k + |Marker|];
    }
    assert OccursAt(url, Marker, |base|) by {
      assert url[|base|..|base| + |Marker|] == Marker;
    }
    assert Find(url, Marker) == Some(|base|);
    assert url[|base| + |Marker|..] == key;
    assert Find(key, Marker).None?;
  }

  /** The slash after the user id is the only slash of an object key made from
      slash-free parts. */
  lemma ObjectKeySlashes(userId: string, uuid: string, fileName: string)
    requires NoSlash(userId) && NoSlash(uuid) && NoSlash(fileName)
    ensures var key := ObjectKey(userId, uuid, fileName);
      forall j :: 0 <= j < |key| && key[j] == '/' ==> j == |userId|
  {
    var ext := LastPiece(fileName, ".");
    LastPieceIsSuffix(fileName, ".");
    var key := ObjectKey(userId, uuid, fileName);
    assert key == userId + "/" + uuid + "." + ext;
    assert forall j :: 0 <= j < |ext| ==> ext[j] == fileName[|fileName| - |ext| + j];
  }

  /** An object key made from slash-free parts never holds the marker, so its
      public URL names it. */
  lemma ObjectKeyHasNoMarker(userId: string, uuid: string, fileName: string)
    requires NoSlash(userId) && NoSlash(uuid) && NoSlash(fileName)
    ensures ObjectKey(userId, uuid, fileName) != ""
    ensures !Contains(ObjectKey(userId, uuid, fileName), Marker)
  {
    var key := ObjectKey(userId, uuid, fileName);
    ObjectKeySlashes(userId, uuid, fileName);
    assert key[|userId|] == '/';
    forall i: nat | i <= |key| ensures !OccursAt(key, Marker, i) {
      if i + |Marker| <= |key| {
        assert key[i..i + |Marker|][0] == key[i] && key[i..i + |Marker|][12] == key[i + 12];
      }
    }
  }

  /** The public URLs of uploaded images name exactly the uploaded keys, in order. */
  lemma UploadedUrlsNameTheirKeys(base: string, userId: string, uuids: seq<string>, fileNames: seq<string>)
    requires |uuids| == |fileNames| && ValidBase(base) && NoSlash(userId)
    requires forall j :: 0 <= j < |uuids| ==> NoSlash(uuids[j]) && NoSlash(fileNames[j])
    ensures StoragePaths(PublicUrls(base, ObjectKeys(userId, uuids, fileNames))) == ObjectKeys(userId, uuids, fileNames)
  {
    var keys := ObjectKeys(userId, uuids, fileNames);
    var urls := PublicUrls(base, keys);
    forall j | 0 <= j < |urls| ensures StoragePath(urls[j]) == Some(keys[j]) {
      ObjectKeyHasNoMarker(userId, uuids[j], fileNames[j]);
      UrlRoundTrip(base, keys[j]);
    }
    StoragePathsOfKeys(urls, keys);
  }

  lemma {:induction false} StoragePathsOfKeys(urls: seq<string>, keys: seq<string>)
    requires |urls| == |keys|
    requires forall j :: 0 <= j < |urls| ==> StoragePath(urls[j]) == Some(keys[j])
    ensures StoragePaths(urls) == keys
    decreases |urls|
  {
    if urls != [] {
      StoragePathsOfKeys(urls[1..], keys[1..]);
    }
  }

  /** The keys named by a list of URLs, in order, skipping the URLs that name none. */
  function StoragePaths(urls: seq<string>): (paths: seq<string>)
    ensures |paths| <= |urls|
    ensures forall k :: k in paths <==> exists u :: u in urls && StoragePath(u) == Some(k)
  {
    if urls == [] then []
    else
      var head := if StoragePath(urls[0]).Some? then [StoragePath(urls[0]).value] else [];
      var rest := StoragePaths(urls[1..]);
      assert forall u :: u in urls <==> u == urls[0] || u in urls[1..];
      head + rest
  }

  // ---------------------------------------------------------------- upload

  /** Whether the upload of `key` and the lookup of its public URL both succeed. */
  predicate Passes(st: Store, key: string)
  {
    UploadObject(key) !in st.faults && PublicUrlOf(key) !in st.faults
  }

  /** How many leading keys upload and resolve without error. */
  function Completed(st: Store, keys: seq<string>): (n: nat)
    ensures n <= |keys|
    ensures forall j :: 0 <= j < n ==> Passes(st, keys[j])
    ensures n < |keys| ==> !Passes(st, keys[n])
  {
    if keys == [] || !Passes(st, keys[0]) then 0 else 1 + Completed(st, keys[1..])
  }

  /** How many uploads are sent: the completed ones and the one that fails. */
  function Tried(st: Store, keys: seq<string>): nat
  {
    var n := Completed(st, keys);
    if n < |keys| then n + 1 else n
  }

  /** How many objects end up stored: an upload that succeeds stores its object
      even when its public URL cannot be read. */
  function Stored(st: Store, keys: seq<string>): nat
  {
    var n := Completed(st, keys);
    if n < |keys| && UploadObject(keys[n]) !in st.faults then n + 1 else n
  }

  function Uploads(keys: seq<string>): (r: seq<Request>)
    ensures |r| == |keys|
    ensures forall j :: 0 <= j < |keys| ==> r[j] == UploadObject(keys[j])
  {
    seq(|keys|, j requires 0 <= j < |keys| => UploadObject(keys[j]))
  }

  /** The error of the first key that fails. */
  function UploadError(st: Store, key: string): string
  {
    if UploadObject(key) in st.faults then st.faults[UploadObject(key)] else "Failed to get public URL"
  }

  /** The store after `tried` uploads of `keys` were sent, of which the first
      `stored` were accepted. */
  function Uploaded(st: Store, keys: seq<string>, stored: nat, tried: nat): Store
    requires stored <= tried <= |keys|
  {
    st.(objects := st.objects + ToSet(keys[..stored]), sent := st.sent + Uploads(keys[..tried]))
  }

  lemma UploadStep(st: Store, keys: seq<string>, i: nat)
    requires i < |keys|
    ensures Execute(Uploaded(st, keys, i, i), UploadObject(keys[i])).1.Err? <==> UploadObject(keys[i]) in st.faults
    ensures Execute(Uploaded(st, keys, i, i), UploadObject(keys[i])).0 ==
      if UploadObject(keys[i]) in st.faults then Uploaded(st, keys, i, i + 1) else Uploaded(st, keys, i + 1, i + 1)
  {
    assert keys[..i + 1] == keys[..i] + [keys[i]];
    assert Uploads(keys[..i + 1]) == Uploads(keys[..i]) + [UploadObject(keys[i])];
    assert ToSet(keys[..i + 1]) == ToSet(keys[..i]) + {keys[i]};
  }

  lemma PublicUrlsStep(base: string, keys: seq<string>, i: nat)
    requires i < |keys|
    ensures PublicUrls(base, keys[..i + 1]) == PublicUrls(base, keys[..i]) + [PublicUrl(base, keys[i])]
  {
  }

  /** The loop stops at key `i` when that key is the first that fails. */
  lemma FailsAt(st: Store, keys: seq<string>, i: nat)
    requires i < |keys| && i <= Completed(st, keys) && !Passes(st, keys[i])
    ensures Completed(st, keys) == i && Tried(st, keys) == i + 1
    ensures Stored(st, keys) == if UploadObject(keys[i]) in st.faults then i else i + 1
  {
  }

  /** Once every key passed, all were sent and stored. */
  lemma AllPass(st: Store, keys: seq<string>)
    requires Completed(st, keys) == |keys|
    ensures Tried(st, keys) == |keys| && Stored(st, keys) == |keys|
  {
  }

  /** `uploadBlogImages`: uploads the files one after the other under fresh
      keys (`uuids` stands for the generated ids) and returns their public URLs
      in file order; the first failure ends the loop, and the files already
      uploaded stay in the bucket. */
  method UploadBlogImages(st: Store, fileNames: seq<string>, userId: string, uuids: seq<string>)
    returns (st': Store, r: Result<seq<string>>)
    requires |uuids| == |fileNames|
    ensures var keys := ObjectKeys(userId, uuids, fileNames);
      var n := Completed(st, keys);
      && (r.Ok? <==> n == |keys|)
      && (r.Ok? ==> r.value == PublicUrls(st.publicBase, keys))
      && (r.Err? ==> r.message == UploadError(st, keys[n]))
      && st' == Uploaded(st, keys, Stored(st, keys), Tried(st, keys))
  {
    var keys := ObjectKeys(userId, uuids, fileNames);
    var uploadedUrls: seq<string> := [];
    st' := st;
    assert keys[..0] == [];
    for i := 0 to |fileNames|
      invariant i <= Completed(st, keys)
      invariant uploadedUrls == PublicUrls(st.publicBase, keys[..i])
      invariant st' == Uploaded(st, keys, i, i)
    {
      var fileName := ObjectKey(userId, uuids[i], fileNames[i]);
      UploadStep(st, keys, i);
      var upload := Execute(st', UploadObject(fileName));
      st' := upload.0;
      if upload.1.Err? {
        FailsAt(st, keys, i);
        return st', Err(upload.1.message);
      }
      if PublicUrlOf(fileName) in st.faults {
        FailsAt(st, keys, i);
        return st', Err("Failed to get public URL");
      }
      PublicUrlsStep(st.publicBase, keys, i);
      uploadedUrls := uploadedUrls + [PublicUrl(st.publicBase, fileName)];
    }
    assert keys[..|keys|] == keys;
    AllPass(st, keys);
    r := Ok(uploadedUrls);
  }

  // ---------------------------------------------------------------- removal

  /** The removal request `deleteBlogImages` sends for a list of URLs, if any. */
  function Removal(urls: seq<string>): (plan: seq<Request>)
    ensures |plan| <= 1
    ensures forall q :: q in plan ==> q.RemoveObjects? && q.keys == StoragePaths(urls)
  {
    var paths := StoragePaths(urls);
    if paths == [] then [] else [RemoveObjects(paths)]
  }

  /** Every key a URL names is among the keys of the removal. */
  lemma NamedKeysListed(urls: seq<string>)
    ensures forall u :: u in urls && StoragePath(u).Some? ==> StoragePath(u).value in StoragePaths(urls)
  {
  }

  /** The removal plan sends at most its one request. */
  lemma RemovalRun(st: Store, urls: seq<string>)
    ensures RunPlan(st, Removal(urls)) ==
      if StoragePaths(urls) == [] then (st, Ok(())) else Execute(st, RemoveObjects(StoragePaths(urls)))
  {
    var paths := StoragePaths(urls);
    if paths != [] {
      var q := RemoveObjects(paths);
      assert Removal(urls) == [q];
      assert [q][1..] == [];
    }
  }

  /** An accepted removal clears every key a URL names. */
  lemma RemovalClears(st: Store, urls: seq<string>)
    ensures RemoveObjects(StoragePaths(urls)) !in st.faults ==>
      forall u :: u in urls && StoragePath(u).Some? ==>
        StoragePath(u).value !in Execute(st, RemoveObjects(StoragePaths(urls))).0.objects
  {
    NamedKeysListed(urls);
  }

  /** `deleteBlogImages`: removes, in one request, the keys the URLs name; no
      request is sent when no URL names a key. */
  function DeleteBlogImages(st: Store, urls: seq<string>): (r: (Store, Result<()>))
    ensures r == RunPlan(st, Removal(urls))
    ensures StoragePaths(urls) == [] ==> r == (st, Ok(()))
    ensures r.1.Err? <==> StoragePaths(urls) != [] && RemoveObjects(StoragePaths(urls)) in st.faults
    ensures r.1.Ok? ==> forall u :: u in urls && StoragePath(u).Some? ==> StoragePath(u).value !in r.0.objects
    ensures r.1.Err? ==> r.0.objects == st.objects
    ensures r.0.objects <= st.objects && r.0.blogs == st.blogs && r.0.comments == st.comments
  {
    RemovalRun(st, urls);
    if |urls| == 0 then (st, Ok(()))
    else
      var paths := StoragePaths(urls);
      if |paths| == 0 then (st, Ok(()))
      else
        RemovalClears(st, urls);
        Execute(st, RemoveObjects(paths))
  }

  // ---------------------------------------------------------------- deleting a post

  /** The image URLs of the comments whose `images` column is an array, in row order. */
  function CommentImages(rows: seq<CommentRow>): (urls: seq<string>)
    ensures forall u :: u in urls <==> exists c :: c in rows && c.images.JArray? && u in c.images.items
  {
    if rows == [] then []
    else
      var init := rows[..|rows| - 1];
      var last := rows[|rows| - 1];
      assert forall c :: c in rows <==> c in init || c == last;
      CommentImages(init) + (if last.images.JArray? then last.images.items else [])
  }

  /** The post's own image list, empty when none is given. */
  function PostImages(images: Option<seq<string>>): seq<string>
  {
    if images.Some? then images.value else []
  }

  /** The writes `deleteBlog` sends once the comments are read: the removal of
      the comments' images, the removal of the post's images, then the
      deletion of the row. */
  function CascadePlan(st: Store, id: string, images: Option<seq<string>>): (plan: seq<Request>)
    ensures |plan| >= 1 && plan[|plan| - 1] == DeleteBlogRows(id)
  {
    Removal(CommentImages(CommentsOf(st, id))) + (Removal(PostImages(images)) + [DeleteBlogRows(id)])
  }

  /** Only removals precede the deletion of the row, so it occurs once, last. */
  lemma CascadePlanLastOnce(st: Store, id: string, images: Option<seq<string>>)
    ensures var plan := CascadePlan(st, id, images);
      plan[|plan| - 1] !in plan[..|plan| - 1]
  {
    var a, b := Removal(CommentImages(CommentsOf(st, id))), Removal(PostImages(images));
    var plan := CascadePlan(st, id, images);
    assert plan == (a + b) + [DeleteBlogRows(id)];
    assert plan[..|plan| - 1] == a + b;
    assert forall q :: q in a + b ==> q.RemoveObjects?;
  }

  /** The loop of `deleteBlog` that gathers the URLs of the comments' images:
      the array of each comment whose `images` column is one, in row order. */
  method CollectCommentImages(comments: seq<CommentRow>) returns (urls: seq<string>)
    ensures urls == CommentImages(comments)
  {
    urls := [];
    for i := 0 to |comments|
      invariant urls == CommentImages(comments[..i])
    {
      assert comments[..i + 1][..i] == comments[..i];
      if comments[i].images.JArray? {
        urls := urls + comments[i].images.items;
      }
    }
    assert comments[..|comments|] == comments;
  }

  /** `if (urls.length > 0) await deleteBlogImages(urls)`: the removal of the
      keys the URLs name, stopping with its error. */
  method RemoveImages(st: Store, urls: seq<string>) returns (st': Store, r: Result<()>)
    ensures (st', r) == RunPlan(st, Removal(urls))
  {
    st', r := st, Ok(());
    if |urls| > 0 {
      var res := DeleteBlogImages(st, urls);
      st', r := res.0, res.1;
    } else {
      assert Removal(urls) == [];
    }
  }

  /** `deleteBlog`: reads the post's comments, removes their images, removes
      the post's images, and deletes the row; the first error ends it. */
  method DeleteBlog(st: Store, id: string, images: Option<seq<string>>) returns (st': Store, r: Result<()>)
    ensures SelectComments(id) in st.faults ==> st' == st && r == Err(st.faults[SelectComments(id)])
    ensures SelectComments(id) !in st.faults ==> (st', r) == RunPlan(st, CascadePlan(st, id, images))
  {
    var read := ReadComments(st, id);
    if read.Err? {
      return st, Err(read.message);
    }
    var commentImages := CollectCommentImages(read.value);
    ghost var a, b, c := Removal(commentImages), Removal(PostImages(images)), [DeleteBlogRows(id)];
    RunPlanAppend(st, a, b + c);
    st', r := RemoveImages(st, commentImages);
    if r.Err? {
      return;
    }
    RunPlanAppend(st', b, c);
    ghost var mid := st';
    st', r := RemoveImages(st', PostImages(images));
    if r.Err? {
      return;
    }
    var res := Execute(st', DeleteBlogRows(id));
    assert RunPlan(st', c) == res;
    st', r := res.0, res.1;
  }

  /** Removals followed by the deletion of a row never add an object, and when
      a write is rejected no row has been deleted. */
  lemma RemovalsThenDelete(st: Store, removals: seq<Request>, id: string)
    requires forall q :: q in removals ==> q.RemoveObjects?
    ensures var (st', r) := RunPlan(st, removals + [DeleteBlogRows(id)]);
      && st'.objects <= st.objects
      && (r.Err? ==> st'.blogs == st.blogs)
  {
    var del := [DeleteBlogRows(id)];
    RunPlanAppend(st, removals, del);
    RemovalsRemove(st, removals);
    var first := RunPlan(st, removals);
    var whole := RunPlan(st, removals + del);
    if first.1.Ok? {
      var last := Execute(first.0, DeleteBlogRows(id));
      assert del[1..] == [];
      assert RunPlan(first.0, del) == last;
      assert whole == last;
      RowWriteKeepsObjects(first.0, DeleteBlogRows(id));
    } else {
      assert whole == first;
    }
  }

  /** Deleting a post never adds to the bucket, and when a write is rejected
      the row is still in place. */
  lemma CascadeAborts(st: Store, id: string, images: Option<seq<string>>)
    ensures RunPlan(st, CascadePlan(st, id, images)).0.objects <= st.objects
    ensures RunPlan(st, CascadePlan(st, id, images)).1.Err? ==>
      RunPlan(st, CascadePlan(st, id, images)).0.blogs == st.blogs
  {
    var a, b := Removal(CommentImages(CommentsOf(st, id))), Removal(PostImages(images));
    assert CascadePlan(st, id, images) == (a + b) + [DeleteBlogRows(id)];
    forall q | q in a + b
      ensures q.RemoveObjects?
    {
      assert q in a || q in b;
    }
    RemovalsThenDelete(st, a + b, id);
  }

  /** The cascade in three steps: the removal of the comments' images, the
      removal of the post's images, the deletion of the row. */
  lemma CascadeSteps(st: Store, id: string, images: Option<seq<string>>)
    ensures RunPlan(st, CascadePlan(st, id, images)) ==
      var first := DeleteBlogImages(st, CommentImages(CommentsOf(st, id)));
      if first.1.Err? then first
      else
        var second := DeleteBlogImages(first.0, PostImages(images));
        if second.1.Err? then second
        else Execute(second.0, DeleteBlogRows(id))
  {
    var a, b, c := Removal(CommentImages(CommentsOf(st, id))), Removal(PostImages(images)), [DeleteBlogRows(id)];
    RunPlanAppend(st, a, b + c);
    var first := RunPlan(st, a);
    if first.1.Ok? {
      RunPlanAppend(first.0, b, c);
      var second := RunPlan(first.0, b);
      if second.1.Ok? {
        assert RunPlan(second.0, c) == Execute(second.0, DeleteBlogRows(id));
      }
    }
  }

  /** When every write is accepted the row is gone and the other rows stay. */
  lemma CascadeDeletesRow(st: Store, id: string, images: Option<seq<string>>)
    requires RunPlan(st, CascadePlan(st, id, images)).1.Ok?
    ensures forall b :: b in RunPlan(st, CascadePlan(st, id, images)).0.blogs <==> b in st.blogs && b.id != id
  {
    CascadeSteps(st, id, images);
  }

  /** A cascade that is accepted throughout removed the comments' images first,
      and removed nothing back into the bucket afterwards. */
  lemma CascadeAfterCommentRemoval(st: Store, id: string, images: Option<seq<string>>)
    requires RunPlan(st, CascadePlan(st, id, images)).1.Ok?
    ensures DeleteBlogImages(st, CommentImages(CommentsOf(st, id))).1.Ok?
    ensures RunPlan(st, CascadePlan(st, id, images)).0.objects <=
      DeleteBlogImages(st, CommentImages(CommentsOf(st, id))).0.objects
  {
    CascadeSteps(st, id, images);
  }

  /** When every write is accepted, every key named by an image of a comment of
      the post is gone from the bucket. */
  lemma CascadeClearsCommentImages(st: Store, id: string, images: Option<seq<string>>, c: CommentRow, u: string)
    requires RunPlan(st, CascadePlan(st, id, images)).1.Ok?
    requires c in st.comments && c.blogId == id && c.images.JArray? && u in c.images.items
    requires StoragePath(u).Some?
    ensures StoragePath(u).value !in RunPlan(st, CascadePlan(st, id, images)).0.objects
  {
    CascadeAfterCommentRemoval(st, id, images);
    CommentImageListed(st, id, c, u);
  }

  /** When every write is accepted, every key named by an image of the post is
      gone from the bucket. */
  lemma CascadeClearsPostImages(st: Store, id: string, images: Option<seq<string>>)
    requires RunPlan(st, CascadePlan(st, id, images)).1.Ok?
    ensures forall u :: u in PostImages(images) && StoragePath(u).Some? ==>
      StoragePath(u).value !in RunPlan(st, CascadePlan(st, id, images)).0.objects
  {
    CascadeSteps(st, id, images);
  }

  lemma CommentImageListed(st: Store, id: string, c: CommentRow, u: string)
    requires c in st.comments && c.blogId == id && c.images.JArray? && u in c.images.items
    ensures u in CommentImages(CommentsOf(st, id))
  {
    assert c in CommentsOf(st, id);
  }

  /** A rejected write ends the cascade: the requests sent are those of the plan
      up to the rejected one, so the row is deleted only after both removals
      were accepted. */
  lemma CascadeStopsAtFirstError(st: Store, id: string, images: Option<seq<string>>)
    ensures var plan := CascadePlan(st, id, images);
      var (st', r) := RunPlan(st, plan);
      && st'.sent == st.sent + Attempted(st.faults, plan)
      && (r.Ok? <==> forall q :: q in plan ==> q !in st.faults)
      && (DeleteBlogRows(id) in st'.sent[|st.sent|..] ==> forall q :: q in plan[..|plan| - 1] ==> q !in st.faults)
  {
    var plan := CascadePlan(st, id, images);
    RunPlanSent(st, plan);
    PlanOkIffNoFault(st, plan);
    CascadePlanLastOnce(st, id, images);
    LastSentAfterAccepted(st.faults, plan);
    var st' := RunPlan(st, plan).0;
    assert st'.sent[|st.sent|..] == Attempted(st.faults, plan);
  }
}
