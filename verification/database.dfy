/** The album and photo tables of backend/database.py as a state machine.
    Each table is a map from row id to record; ids are handed out in
    increasing order (AUTOINCREMENT) and rows are never removed, only marked
    deleted. Every read filters on the status column. */
module Database {
  import opened Results
  import opened Formats

  datatype AlbumStatus = AlbumActive | AlbumArchived | AlbumDeleted

  datatype PhotoStatus = PhotoActive | PhotoDeleted

  /** A row of `albums`; the timestamps are not modelled. */
  datatype Album = Album(name: string, description: Option<string>, coverPhotoId: Option<int>, status: AlbumStatus)

  /** A row of `photos`; the timestamps are not modelled. */
  datatype Photo = Photo(
    albumId: int,
    filename: string,
    originalFilename: string,
    fileFormat: Format,
    originalPath: string,
    compressedPath: string,
    originalSize: int,
    compressedSize: int,
    width: int,
    height: int,
    compressionRatio: real,
    status: PhotoStatus)

  /** Both tables with the last id each has handed out. */
  datatype Store = Store(albums: map<int, Album>, photos: map<int, Photo>, lastAlbumId: nat, lastPhotoId: nat)

  /** An album as the two album queries return it, with its photo count. */
  datatype AlbumView = AlbumView(id: int, album: Album, photoCount: nat)

  /** The text of the error SQLite raises when an album name is reused; the
      album routes look for it to answer 409. */
  const UniqueNameViolation: string := "UNIQUE constraint failed: albums.name"

  const EmptyStore: Store := Store(map[], map[], 0, 0)

  predicate NamesUnique(albums: map<int, Album>) {
    forall a, b :: a in albums && b in albums && albums[a].name == albums[b].name ==> a == b
  }

  /** What the database guarantees of every state: ids lie between 1 and the
      last id handed out, and no two album rows share a name. */
  predicate Valid(s: Store) {
    && (forall id :: id in s.albums ==> 1 <= id <= s.lastAlbumId)
    && (forall id :: id in s.photos ==> 1 <= id <= s.lastPhotoId)
    && NamesUnique(s.albums)
  }

  lemma EmptyStoreValid()
    ensures Valid(EmptyStore)
  {
  }

  /** Some row, whatever its status, already carries `name`. */
  predicate NameTaken(s: Store, name: string) {
    exists id :: id in s.albums && s.albums[id].name == name
  }

  predicate IsActiveAlbum(s: Store, id: int) {
    id in s.albums && s.albums[id].status == AlbumActive
  }

  predicate IsActivePhoto(s: Store, id: int) {
    id in s.photos && s.photos[id].status == PhotoActive
  }

  /** The active photo rows naming an album. */
  function ActivePhotoIds(s: Store, albumId: int): set<int> {
    set id | id in s.photos && s.photos[id].albumId == albumId && s.photos[id].status == PhotoActive
  }

  /** `COUNT(p.id)` of the left join on active photos. */
  function PhotoCount(s: Store, albumId: int): nat {
    |ActivePhotoIds(s, albumId)|
  }

  /** `(original_size - compressed_size) / original_size * 100`, or 0 for an
      empty original, computed exactly. */
  function CompressionRatio(originalSize: int, compressedSize: int): (r: real)
    ensures originalSize <= 0 ==> r == 0.0
    ensures originalSize > 0 && compressedSize >= 0 ==> r <= 100.0
    ensures originalSize > 0 && compressedSize <= originalSize ==> r >= 0.0
    ensures originalSize > 0 && compressedSize == originalSize ==> r == 0.0
  {
    if originalSize > 0 then
      (originalSize - compressedSize) as real / originalSize as real * 100.0
    else 0.0
  }

  /** Keeping 400 of 1000 bytes saves 60 percent. */
  lemma CompressionRatioExample()
    ensures CompressionRatio(1000, 400) == 60.0
    ensures CompressionRatio(0, 400) == 0.0
  {
  }

  /** `create_album(name, description)`: a fresh id for a new active album, or
      the unique-name error when any row, deleted ones included, already has
      the name. */
  function CreateAlbum(s: Store, name: string, description: Option<string>): (r: Result<(Store, int)>)
    requires Valid(s)
    ensures r.Err? <==> NameTaken(s, name)
    ensures r.Err? ==> r.message == UniqueNameViolation
    ensures r.Ok? ==>
      var (t, id) := r.value;
      && Valid(t)
      && id !in s.albums
      && t.albums == s.albums[id := Album(name, description, None, AlbumActive)]
      && t.photos == s.photos
  {
    if NameTaken(s, name) then Err(UniqueNameViolation)
    else
      var id := s.lastAlbumId + 1;
      Ok((s.(albums := s.albums[id := Album(name, description, None, AlbumActive)], lastAlbumId := id), id))
  }

  /** A created album can be read back, and it starts out empty as long as no
      photo row already names its id. */
  lemma CreatedAlbumIsVisible(s: Store, name: string, description: Option<string>)
    requires Valid(s)
    requires CreateAlbum(s, name, description).Ok?
    ensures var (t, id) := CreateAlbum(s, name, description).value;
      && GetAlbumById(t, id).Some?
      && GetAlbumById(t, id).value.album == Album(name, description, None, AlbumActive)
      && GetAlbumById(t, id).value.photoCount == PhotoCount(s, id)
  {
  }

  /** When every photo row names an existing album, a new album has no photos. */
  lemma {:induction false} CreatedAlbumIsEmpty(s: Store, name: string, description: Option<string>)
    requires Valid(s)
    requires forall p :: p in s.photos ==> s.photos[p].albumId in s.albums
    requires CreateAlbum(s, name, description).Ok?
    ensures var (t, id) := CreateAlbum(s, name, description).value; PhotoCount(t, id) == 0
  {
    var (t, id) := CreateAlbum(s, name, description).value;
    assert ActivePhotoIds(t, id) == {} by {
      forall p | p in t.photos
        ensures t.photos[p].albumId != id
      {
        assert s.photos[p].albumId in s.albums;
      }
    }
  }

  /** Nothing enforces the declared foreign key, so a photo may be recorded for
      an album that does not exist yet; an album later created with that id
      starts with that photo in its count. */
  lemma {:induction false} OrphanPhotoJoinsNewAlbum()
    ensures var (s1, p) := CreatePhoto(EmptyStore, 1, "photo_1_1000.png", "a.png", PNG,
                                       "uploads/originals/photo_1_1000.png", "uploads/compressed/photo_1_1000.png",
                                       10, 5, 1, 1);
      && CreateAlbum(s1, "Trips", None).Ok?
      && CreateAlbum(s1, "Trips", None).value.1 == 1
      && PhotoCount(CreateAlbum(s1, "Trips", None).value.0, 1) == 1
  {
    EmptyStoreValid();
    var (s1, p) := CreatePhoto(EmptyStore, 1, "photo_1_1000.png", "a.png", PNG,
                               "uploads/originals/photo_1_1000.png", "uploads/compressed/photo_1_1000.png",
                               10, 5, 1, 1);
    assert p == 1 && s1.albums == map[];
    var (s2, a) := CreateAlbum(s1, "Trips", None).value;
    assert ActivePhotoIds(s2, 1) == {1};
  }

  /** Names stay unique, so the name of a deleted album cannot be reused. */
  lemma DeletedNameStaysTaken(s: Store, id: int, description: Option<string>)
    requires Valid(s)
    requires id in s.albums && s.albums[id].status == AlbumDeleted
    ensures CreateAlbum(s, s.albums[id].name, description) == Err(UniqueNameViolation)
  {
  }

  /** An album with the optional new name and description applied. */
  function ApplyUpdate(a: Album, name: Option<string>, description: Option<string>): (r: Album)
    ensures r.name == (if name.Some? then name.value else a.name)
    ensures r.description == (if description.Some? then description else a.description)
    ensures r.coverPhotoId == a.coverPhotoId && r.status == a.status
  {
    a.(name := if name.Some? then name.value else a.name,
       description := if description.Some? then description else a.description)
  }

  /** `update_album(album_id, name, description)`. With nothing to change it
      succeeds without touching the tables. Otherwise it changes only the given
      fields, and only on an active album; it reports whether one was found.
      When the album is active, a new name held by another row raises the
      unique-name error. */
  function UpdateAlbum(s: Store, id: int, name: Option<string>, description: Option<string>): (r: Result<(Store, bool)>)
    requires Valid(s)
    ensures name.None? && description.None? ==> r == Ok((s, true))
    ensures (name.Some? || description.Some?) && !IsActiveAlbum(s, id) ==> r == Ok((s, false))
    ensures r.Err? ==> r.message == UniqueNameViolation
    ensures r.Err? <==> (IsActiveAlbum(s, id) && name.Some? &&
                         exists other :: other in s.albums && other != id && s.albums[other].name == name.value)
    ensures r.Ok? ==> Valid(r.value.0) && r.value.0.photos == s.photos
    ensures (name.Some? || description.Some?) && IsActiveAlbum(s, id) && r.Ok? ==> r.value.1
    ensures r.Ok? && !r.value.1 ==> r.value.0 == s
    ensures r.Ok? && r.value.1 && (name.Some? || description.Some?) ==>
      && IsActiveAlbum(s, id)
      && r.value.0.albums == s.albums[id := ApplyUpdate(s.albums[id], name, description)]
  {
    if name.None? && description.None? then Ok((s, true))
    else if !IsActiveAlbum(s, id) then Ok((s, false))
    else if name.Some? && exists other :: other in s.albums && other != id && s.albums[other].name == name.value then
      Err(UniqueNameViolation)
    else
      var t := s.(albums := s.albums[id := ApplyUpdate(s.albums[id], name, description)]);
      assert NamesUnique(t.albums) by {
        forall a, b | a in t.albums && b in t.albums && t.albums[a].name == t.albums[b].name
          ensures a == b
        {
          if a != id && b != id {
            assert s.albums[a].name == s.albums[b].name;
          }
        }
      }
      Ok((t, true))
  }

  /** An update leaves every other album alone, and the updated album keeps
      its status and cover photo. */
  lemma UpdateAlbumFrame(s: Store, id: int, name: Option<string>, description: Option<string>, other: int)
    requires Valid(s)
    requires UpdateAlbum(s, id, name, description).Ok?
    requires other != id && other in s.albums
    ensures var t := UpdateAlbum(s, id, name, description).value.0;
      && other in t.albums && t.albums[other] == s.albums[other]
      && (id in s.albums ==> id in t.albums && t.albums[id].status == s.albums[id].status
                                            && t.albums[id].coverPhotoId == s.albums[id].coverPhotoId)
  {
  }

  /** `delete_album(album_id)`: an active album becomes deleted and the call
      reports success; in every other case nothing changes and it reports
      failure. */
  function DeleteAlbum(s: Store, id: int): (r: (Store, bool))
    requires Valid(s)
    ensures r.1 <==> IsActiveAlbum(s, id)
    ensures r.1 ==> r.0 == s.(albums := s.albums[id := s.albums[id].(status := AlbumDeleted)])
    ensures !r.1 ==> r.0 == s
    ensures Valid(r.0)
  {
    if IsActiveAlbum(s, id) then
      var t := s.(albums := s.albums[id := s.albums[id].(status := AlbumDeleted)]);
      assert NamesUnique(t.albums) by {
        forall a, b | a in t.albums && b in t.albums && t.albums[a].name == t.albums[b].name
          ensures a == b
        {
          assert s.albums[a].name == s.albums[b].name;
        }
      }
      (t, true)
    else (s, false)
  }

  /** Deleting twice: the second call finds nothing to delete. */
  lemma DeleteAlbumTwice(s: Store, id: int)
    requires Valid(s)
    ensures !DeleteAlbum(DeleteAlbum(s, id).0, id).1
    ensures DeleteAlbum(DeleteAlbum(s, id).0, id).0 == DeleteAlbum(s, id).0
  {
  }

  /** A deleted album disappears from the album queries, but its photos stay
      active and are still listed for its id. */
  lemma DeleteAlbumKeepsPhotos(s: Store, id: int)
    requires Valid(s)
    ensures DeleteAlbum(s, id).0.photos == s.photos
    ensures GetAlbumById(DeleteAlbum(s, id).0, id) == None
    ensures id !in GetAllAlbums(DeleteAlbum(s, id).0)
    ensures GetPhotosByAlbum(DeleteAlbum(s, id).0, id) == GetPhotosByAlbum(s, id)
  {
  }

  /** `get_album_by_id(album_id)`: only an active album is found. */
  function GetAlbumById(s: Store, id: int): (r: Option<AlbumView>)
    ensures r.Some? <==> IsActiveAlbum(s, id)
    ensures r.Some? ==> r.value.id == id && r.value.album == s.albums[id]
  {
    if IsActiveAlbum(s, id) then Some(AlbumView(id, s.albums[id], PhotoCount(s, id))) else None
  }

  /** `get_all_albums()`, keyed by id; the order by creation time is not
      modelled. */
  function GetAllAlbums(s: Store): (r: map<int, AlbumView>)
    ensures forall id :: id in r <==> IsActiveAlbum(s, id)
  {
    map id | id in s.albums && s.albums[id].status == AlbumActive :: AlbumView(id, s.albums[id], PhotoCount(s, id))
  }

  /** The listing agrees with the single-album lookup, row by row. */
  lemma AllAlbumsAgreeWithLookup(s: Store, id: int)
    ensures id in GetAllAlbums(s) <==> GetAlbumById(s, id).Some?
    ensures id in GetAllAlbums(s) ==> GetAllAlbums(s)[id] == GetAlbumById(s, id).value
  {
  }

  /** `get_photos_by_album(album_id)`, keyed by id: the active photos naming
      the album, whatever the album's own status. */
  function GetPhotosByAlbum(s: Store, albumId: int): (r: map<int, Photo>)
    ensures forall id :: id in r <==> IsActivePhoto(s, id) && s.photos[id].albumId == albumId
    ensures forall id :: id in r ==> id in s.photos && r[id] == s.photos[id]
  {
    map id | id in s.photos && s.photos[id].albumId == albumId && s.photos[id].status == PhotoActive :: s.photos[id]
  }

  /** The count an album query reports is the number of photos its listing
      returns. */
  lemma PhotoCountMatchesListing(s: Store, albumId: int)
    requires IsActiveAlbum(s, albumId)
    ensures GetAlbumById(s, albumId).value.photoCount == |GetPhotosByAlbum(s, albumId)|
  {
    assert GetPhotosByAlbum(s, albumId).Keys == ActivePhotoIds(s, albumId);
  }

  /** `create_photo(...)`: a fresh id for a new active photo row, with its
      compression ratio. The album id is stored as given. */
  function CreatePhoto(s: Store, albumId: int, filename: string, originalFilename: string, fileFormat: Format,
                       originalPath: string, compressedPath: string, originalSize: int, compressedSize: int,
                       width: int, height: int): (r: (Store, int))
    requires Valid(s)
    ensures Valid(r.0)
    ensures r.1 !in s.photos
    ensures r.0.albums == s.albums
    ensures r.0.photos == s.photos[r.1 := Photo(albumId, filename, originalFilename, fileFormat, originalPath,
                                                compressedPath, originalSize, compressedSize, width, height,
                                                CompressionRatio(originalSize, compressedSize), PhotoActive)]
  {
    var id := s.lastPhotoId + 1;
    var p := Photo(albumId, filename, originalFilename, fileFormat, originalPath, compressedPath,
                   originalSize, compressedSize, width, height,
                   CompressionRatio(originalSize, compressedSize), PhotoActive);
    (s.(photos := s.photos[id := p], lastPhotoId := id), id)
  }

  /** A new photo adds one to its album's count and leaves every other count
      alone. */
  lemma {:induction false} CreatePhotoCounts(s: Store, albumId: int, filename: string, originalFilename: string,
                                             fileFormat: Format, originalPath: string, compressedPath: string,
                                             originalSize: int, compressedSize: int, width: int, height: int, other: int)
    requires Valid(s)
    ensures var t := CreatePhoto(s, albumId, filename, originalFilename, fileFormat, originalPath, compressedPath,
                                 originalSize, compressedSize, width, height).0;
      PhotoCount(t, other) == PhotoCount(s, other) + (if other == albumId then 1 else 0)
  {
    var (t, id) := CreatePhoto(s, albumId, filename, originalFilename, fileFormat, originalPath, compressedPath,
                               originalSize, compressedSize, width, height);
    AddedPhotoCounts(s, t, id, other);
  }

  lemma AddedPhotoCounts(s: Store, t: Store, id: int, other: int)
    requires id !in s.photos && id in t.photos && t.photos[id].status == PhotoActive
    requires t.photos == s.photos[id := t.photos[id]]
    ensures PhotoCount(t, other) == PhotoCount(s, other) + (if other == t.photos[id].albumId then 1 else 0)
  {
    if other == t.photos[id].albumId {
      assert ActivePhotoIds(t, other) == ActivePhotoIds(s, other) + {id};
    } else {
      assert ActivePhotoIds(t, other) == ActivePhotoIds(s, other);
    }
  }

  /** `delete_photo(photo_id)`: an active photo becomes deleted and the call
      reports success; otherwise nothing changes. */
  function DeletePhoto(s: Store, id: int): (r: (Store, bool))
    requires Valid(s)
    ensures r.1 <==> IsActivePhoto(s, id)
    ensures r.1 ==> r.0 == s.(photos := s.photos[id := s.photos[id].(status := PhotoDeleted)])
    ensures !r.1 ==> r.0 == s
    ensures Valid(r.0)
  {
    if IsActivePhoto(s, id) then (s.(photos := s.photos[id := s.photos[id].(status := PhotoDeleted)]), true)
    else (s, false)
  }

  /** Deleting a photo twice: the second call finds nothing to delete. */
  lemma DeletePhotoTwice(s: Store, id: int)
    requires Valid(s)
    ensures !DeletePhoto(DeletePhoto(s, id).0, id).1
    ensures DeletePhoto(DeletePhoto(s, id).0, id).0 == DeletePhoto(s, id).0
  {
  }

  /** Deleting a photo takes one off its album's count and no other. */
  lemma {:induction false} DeletePhotoCounts(s: Store, id: int, other: int)
    requires Valid(s)
    requires IsActivePhoto(s, id)
    ensures PhotoCount(DeletePhoto(s, id).0, other)
            == PhotoCount(s, other) - (if other == s.photos[id].albumId then 1 else 0)
  {
    var t := DeletePhoto(s, id).0;
    if other == s.photos[id].albumId {
      assert ActivePhotoIds(s, other) == ActivePhotoIds(t, other) + {id};
    } else {
      assert ActivePhotoIds(t, other) == ActivePhotoIds(s, other);
    }
  }

  /** `get_photo_by_id(photo_id)`: only an active photo is found. */
  function GetPhotoById(s: Store, id: int): (r: Option<Photo>)
    ensures r.Some? <==> IsActivePhoto(s, id)
    ensures r.Some? ==> r.value == s.photos[id]
  {
    if IsActivePhoto(s, id) then Some(s.photos[id]) else None
  }

  /** A deleted photo can no longer be fetched, and no other photo changes. */
  lemma DeletedPhotoHidden(s: Store, id: int, other: int)
    requires Valid(s)
    ensures GetPhotoById(DeletePhoto(s, id).0, id) == None
    ensures other != id ==> GetPhotoById(DeletePhoto(s, id).0, other) == GetPhotoById(s, other)
  {
  }
}
