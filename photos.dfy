/** The `exif` library and the directory, as both scripts use them: a decoded
    JPEG is a tag map with a `has_exif` flag, and the directory holds the
    photos that open and decode, plus an oracle telling which write-backs
    succeed. */
module Photos {
  import opened Wrappers
  import opened Strings

  /** The capture-time tag both scripts read, write or delete. */
  const DateTimeOriginal: string := "datetime_original"

  /** An `exif.Image`: whether the file carries an EXIF segment, and its tags
      by name, as `list_all()` and `get()` report them. */
  datatype Photo = Photo(hasExif: bool, tags: map<string, string>)

  /** `has_exif and tag in list_all()`, then `get(tag)`. */
  function GetTag(p: Photo, tag: string): (r: Option<string>)
    ensures r.Some? <==> p.hasExif && tag in p.tags
    ensures r.Some? ==> r.value == p.tags[tag]
  {
    if p.hasExif && tag in p.tags then Some(p.tags[tag]) else None
  }

  /** Every tag other than `tag` reads the same in `p` and `q`. */
  ghost predicate SameTagsBut(p: Photo, q: Photo, tag: string) {
    forall t :: t != tag ==> GetTag(p, t) == GetTag(q, t)
  }

  /** The photo after `img.<tag> = value`: the image carries EXIF, the tag
      holds the value, and every other tag reads as it did. A photo without
      EXIF gets a new segment holding that tag alone. */
  function SetTag(p: Photo, tag: string, value: string): (q: Photo)
    ensures GetTag(q, tag) == Some(value)
    ensures SameTagsBut(p, q, tag)
    ensures q.tags.Keys == (if p.hasExif then p.tags.Keys else {}) + {tag}
  {
    Photo(true, (if p.hasExif then p.tags else map[])[tag := value])
  }

  /** The photo after `del img.<tag>`: the tag is gone and every other tag is
      as it was. */
  function DeleteTag(p: Photo, tag: string): (q: Photo)
    ensures GetTag(q, tag).None?
    ensures q.hasExif == p.hasExif
    ensures q.tags.Keys == p.tags.Keys - {tag}
    ensures forall t :: t in q.tags ==> q.tags[t] == p.tags[t]
  {
    Photo(p.hasExif, p.tags - {tag})
  }

  /** `filename.lower().endswith(('.jpg', '.jpeg'))` */
  predicate IsJpegName(name: string) {
    EndsWith(Lower(name), ".jpg") || EndsWith(Lower(name), ".jpeg")
  }

  /** `filename.lower().endswith('.png')` */
  predicate IsPngName(name: string) {
    EndsWith(Lower(name), ".png")
  }

  /** No name passes both extension tests. */
  lemma PngIsNotJpeg(name: string)
    ensures !(IsPngName(name) && IsJpegName(name))
  {
    var l := Lower(name);
    assert EndsWith(l, ".png") ==> l[|l| - 2] == ".png"[2] == 'n';
    assert EndsWith(l, ".jpg") ==> l[|l| - 2] == ".jpg"[2] == 'p';
    assert EndsWith(l, ".jpeg") ==> l[|l| - 2] == ".jpeg"[3] == 'e';
  }

  /** What `Image(open(path, 'rb'))` yields: the photo, or nothing when the
      entry does not open or decode (a directory, a corrupt file). */
  function Load(files: map<string, Photo>, name: string): (r: Option<Photo>)
    ensures r.Some? <==> name in files
    ensures r.Some? ==> r.value == files[name]
  {
    if name in files then Some(files[name]) else None
  }

  /** The directory after a step that wrote `written` back over `name`, if
      it wrote anything. */
  function Apply(files: map<string, Photo>, name: string, written: Option<Photo>): (r: map<string, Photo>)
    ensures written.None? ==> r == files
    ensures written.Some? ==> r.Keys == files.Keys + {name} && r[name] == written.value
    ensures forall n :: n in files && n != name ==> n in r && r[n] == files[n]
  {
    if written.Some? then files[name := written.value] else files
  }

  /** The directory being processed. */
  class Disk {
    /** The entries that open and decode as images, by file name. */
    var files: map<string, Photo>
    /** The entries whose tag update and write-back succeed. */
    var writable: set<string>

    constructor (files: map<string, Photo>, writable: set<string>)
      ensures this.files == files && this.writable == writable
    {
      this.files := files;
      this.writable := writable;
    }

    /** Opens and decodes one entry. */
    method Open(name: string) returns (r: Option<Photo>)
      ensures r == Load(files, name)
    {
      if name in files {
        r := Some(files[name]);
      } else {
        r := None;
      }
    }

    /** Writes `img.get_file()` back over the entry; `ok` is false when that
        raises, and the entry is then left as it was. */
    method Save(name: string, p: Photo) returns (ok: bool)
      modifies this`files
      ensures ok == (name in writable)
      ensures files == if ok then old(files)[name := p] else old(files)
    {
      ok := name in writable;
      if ok {
        files := files[name := p];
      }
    }
  }
}
