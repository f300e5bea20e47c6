/**
 * The `nom_derive` VPK directory decoder of `steamkit-vpk/src/parser.rs`.
 * A directory file is a little-endian header, a tree of NUL-terminated
 * extension / directory / name strings with one directory entry per file,
 * and, in version 2, archive MD5 records, a local MD5 block and a
 * signature. Every decoder returns the value and the position after it,
 * or `None`; `Parse` turns any failure into `Error::Parse`.
 */
module VpkParser {
  import opened Wrappers
  import opened Bytes

  const SIGNATURE: nat := 0x55aa1234
  const V1_LENGTH: nat := 12
  const V2_LENGTH: nat := 28

  datatype Error = Parse

  datatype HeaderV2 = HeaderV2(dataLength: nat, archiveMd5Length: nat, localMd5Length: nat, signatureLength: nat)

  datatype Header = Header(signature: nat, version: nat, treeLength: nat, v2: Option<HeaderV2>)

  datatype DirectoryEntry = DirectoryEntry(
    crc32: nat, preloadLength: nat, archiveIndex: nat, archiveOffset: nat, fileLength: nat, suffix: nat,
    preload: seq<Byte>)

  datatype Entry = Entry(path: string, dirEntry: DirectoryEntry)

  datatype ArchiveMd5Entry = ArchiveMd5Entry(archiveIndex: nat, offset: nat, length: nat, checksum: seq<Byte>)

  datatype LocalMd5 = LocalMd5(treeChecksum: seq<Byte>, archiveMd5Checksum: seq<Byte>, unknownChecksum: seq<Byte>)

  datatype Signature = Signature(publicKey: seq<Byte>, signature: seq<Byte>)

  datatype Vpk = Vpk(
    header: Header, tree: map<string, Entry>, archiveMd5s: Option<seq<ArchiveMd5Entry>>,
    localMd5: Option<LocalMd5>, signature: Option<Signature>)

  // ---------------------------------------------------------------------
  // Header

  /** `HeaderV2::parse`: four `u32` fields, the archive MD5 length a multiple of 28 and the local MD5 length 48. */
  function HeaderV2At(s: seq<Byte>, i: nat): (r: Option<(HeaderV2, nat)>)
    ensures r.Some? ==> r.value.1 == i + 16 && r.value.1 <= |s|
    ensures r.Some? ==> r.value.0.archiveMd5Length % 28 == 0 && r.value.0.localMd5Length == 48
    ensures r.None? <==> i + 16 > |s| || LeU32(s, i + 4) % 28 != 0 || LeU32(s, i + 8) != 48
  {
    if i + 16 > |s| then None
    else
      var h := HeaderV2(LeU32(s, i), LeU32(s, i + 4), LeU32(s, i + 8), LeU32(s, i + 12));
      if h.archiveMd5Length % 28 != 0 || h.localMd5Length != 48 then None
      else Some((h, i + 16))
  }

  /** `Header::parse`: the signature must be `SIGNATURE` and the version 1 or 2; version 2 carries a `HeaderV2`. */
  function HeaderAt(s: seq<Byte>, i: nat): (r: Option<(Header, nat)>)
    ensures r.Some? ==> r.value.0.signature == SIGNATURE
    ensures r.Some? ==> r.value.0.version == 1 || r.value.0.version == 2
    ensures r.Some? ==> (r.value.0.v2.Some? <==> r.value.0.version == 2)
    ensures r.Some? ==> r.value.1 == i + (if r.value.0.version == 1 then V1_LENGTH else V2_LENGTH) && r.value.1 <= |s|
    ensures i + 12 <= |s| && (LeU32(s, i) != SIGNATURE || (LeU32(s, i + 4) != 1 && LeU32(s, i + 4) != 2)) ==> r.None?
  {
    if i + 12 > |s| then None
    else
      var signature := LeU32(s, i);
      var version := LeU32(s, i + 4);
      if signature != SIGNATURE || (version != 1 && version != 2) then None
      else
        var treeLength := LeU32(s, i + 8);
        if version == 1 then Some((Header(signature, version, treeLength, None), i + 12))
        else match HeaderV2At(s, i + 12)
          case None => None
          case Some((v2, j)) => Some((Header(signature, version, treeLength, Some(v2)), j))
  }

  /** A header `Header::parse` accepts: right signature and version, a version-2 part exactly in version 2, fields that fit in a `u32`. */
  predicate ValidHeader(h: Header) {
    h.signature == SIGNATURE && (h.version == 1 || h.version == 2) && (h.v2.Some? <==> h.version == 2) &&
    h.treeLength < 0x1_0000_0000 &&
    (h.v2.Some? ==> var v := h.v2.value;
      v.dataLength < 0x1_0000_0000 && v.archiveMd5Length < 0x1_0000_0000 && v.archiveMd5Length % 28 == 0 &&
      v.localMd5Length == 48 && v.signatureLength < 0x1_0000_0000)
  }

  /** The little-endian bytes of a header. */
  function HeaderBytes(h: Header): (r: seq<Byte>)
    requires ValidHeader(h)
    ensures |r| == if h.version == 1 then V1_LENGTH else V2_LENGTH
  {
    U32Bytes(h.signature) + U32Bytes(h.version) + U32Bytes(h.treeLength) +
    (if h.v2.None? then [] else V2Bytes(h.v2.value))
  }

  /** Every valid header reads back from its bytes, whatever follows them. */
  lemma HeaderRoundTrip(h: Header, rest: seq<Byte>)
    requires ValidHeader(h)
    ensures HeaderAt(HeaderBytes(h) + rest, 0) == Some((h, |HeaderBytes(h)|))
  {
    var a, b, c := U32Bytes(h.signature), U32Bytes(h.version), U32Bytes(h.treeLength);
    var tail := HeaderBytes(h)[12..] + rest;
    var s := HeaderBytes(h) + rest;
    assert s == [] + a + (b + c + tail);
    LeU32OfBytes(h.signature, [], b + c + tail);
    assert s == a + b + (c + tail);
    LeU32OfBytes(h.version, a, c + tail);
    assert s == (a + b) + c + tail;
    LeU32OfBytes(h.treeLength, a + b, tail);
    if h.v2.Some? {
      V2RoundTrip(h.v2.value, a + b + c, rest);
      assert s == a + b + c + V2Bytes(h.v2.value) + rest;
    }
  }

  function V2Bytes(v: HeaderV2): (r: seq<Byte>)
    requires v.dataLength < 0x1_0000_0000 && v.archiveMd5Length < 0x1_0000_0000 &&
             v.localMd5Length < 0x1_0000_0000 && v.signatureLength < 0x1_0000_0000
  {
    U32Bytes(v.dataLength) + U32Bytes(v.archiveMd5Length) + U32Bytes(v.localMd5Length) + U32Bytes(v.signatureLength)
  }

  lemma V2RoundTrip(v: HeaderV2, pre: seq<Byte>, rest: seq<Byte>)
    requires v.dataLength < 0x1_0000_0000 && v.archiveMd5Length < 0x1_0000_0000 && v.archiveMd5Length % 28 == 0 &&
             v.localMd5Length == 48 && v.signatureLength < 0x1_0000_0000
    ensures HeaderV2At(pre + V2Bytes(v) + rest, |pre|) == Some((v, |pre| + 16))
  {
    var a, b, c, d := U32Bytes(v.dataLength), U32Bytes(v.archiveMd5Length), U32Bytes(v.localMd5Length), U32Bytes(v.signatureLength);
    var s := pre + V2Bytes(v) + rest;
    assert s == pre + a + (b + c + d + rest);
    LeU32OfBytes(v.dataLength, pre, b + c + d + rest);
    assert s == (pre + a) + b + (c + d + rest);
    LeU32OfBytes(v.archiveMd5Length, pre + a, c + d + rest);
    assert s == (pre + a + b) + c + (d + rest);
    LeU32OfBytes(v.localMd5Length, pre + a + b, d + rest);
    assert s == (pre + a + b + c) + d + rest;
    LeU32OfBytes(v.signatureLength, pre + a + b + c, rest);
  }

  /** `Header::data_offset`: where the embedded file data starts, right after the header and the tree. */
  function DataOffset(h: Header): (r: nat)
    ensures h.version == 1 ==> r == h.treeLength + V1_LENGTH
    ensures h.version == 2 ==> r == h.treeLength + V2_LENGTH
    ensures h.version != 1 && h.version != 2 ==> r == h.treeLength
  {
    var offset := h.treeLength;
    if h.version == 1 then offset + V1_LENGTH
    else if h.version == 2 then offset + V2_LENGTH
    else offset
  }

  /** The version-2 field `f` when the header is version 2 and has that part, otherwise 0. */
  function V2Field(h: Header, f: HeaderV2 -> nat): (r: nat)
    ensures h.version == 2 && h.v2.Some? ==> r == f(h.v2.value)
    ensures h.version != 2 || h.v2.None? ==> r == 0
  {
    if h.version == 2 && h.v2.Some? then f(h.v2.value) else 0
  }

  /** `Header::data_length`. */
  function DataLength(h: Header): nat {
    V2Field(h, (v2: HeaderV2) => v2.dataLength)
  }

  /** `Header::archive_md5_length`. */
  function ArchiveMd5Length(h: Header): nat {
    V2Field(h, (v2: HeaderV2) => v2.archiveMd5Length)
  }

  /** `Header::local_md5_length`. */
  function LocalMd5Length(h: Header): nat {
    V2Field(h, (v2: HeaderV2) => v2.localMd5Length)
  }

  /** `Header::signature_length`. */
  function SignatureLength(h: Header): nat {
    V2Field(h, (v2: HeaderV2) => v2.signatureLength)
  }

  /** For a decoded header the data offset is the header's own length plus the tree length. */
  lemma DataOffsetOfParsed(s: seq<Byte>, i: nat)
    requires HeaderAt(s, i).Some?
    ensures var (h, j) := HeaderAt(s, i).value; DataOffset(h) == (j - i) + h.treeLength
  {
  }

  /** A decoded version-1 header reports every version-2 length as 0; a version-2 one reports its fields, with a local MD5 length of 48. */
  lemma LengthsOfParsed(s: seq<Byte>, i: nat)
    requires HeaderAt(s, i).Some?
    ensures var h := HeaderAt(s, i).value.0;
            (h.version == 1 ==> DataLength(h) == 0 && ArchiveMd5Length(h) == 0 && LocalMd5Length(h) == 0 && SignatureLength(h) == 0) &&
            (h.version == 2 ==> LocalMd5Length(h) == 48 && ArchiveMd5Length(h) % 28 == 0 &&
                                DataLength(h) == LeU32(s, i + 12) && SignatureLength(h) == LeU32(s, i + 24))
  {
  }

  // ---------------------------------------------------------------------
  // Strings and entries

  /** `cstring`: the bytes up to the first NUL, decoded as UTF-8; the NUL is consumed. */
  function CString(s: seq<Byte>, i: nat): (r: Option<(string, nat)>)
    requires i <= |s|
    ensures r.Some? ==> i < r.value.1 <= |s|
    ensures r.Some? ==> (r.value.0 == [] <==> s[i] == 0)
  {
    match NulAt(s, i)
    case None => None
    case Some(z) =>
      match Utf8Decode(s[i..z])
      case None => None
      case Some(t) => Some((t, z + 1))
  }

  /**
   * `cstring` succeeds exactly when a NUL follows and the bytes before it
   * are well-formed UTF-8; it then returns their text and stops after the NUL.
   */
  lemma CStringReadsToNul(s: seq<Byte>, i: nat)
    requires i <= |s|
    ensures CString(s, i).None? <==> NulAt(s, i).None? || Utf8Decode(s[i..NulAt(s, i).value]).None?
    ensures CString(s, i).Some? ==>
              var (t, j) := CString(s, i).value;
              s[j - 1] == 0 && (forall k :: i <= k < j - 1 ==> s[k] != 0) && Utf8Decode(s[i..j - 1]) == Some(t)
  {
  }

  /** A text without NUL characters, written as UTF-8 and a NUL, reads back. */
  lemma CStringRoundTrip(t: string, pre: seq<Byte>, post: seq<Byte>)
    requires forall k :: 0 <= k < |t| ==> t[k] != 0 as char
    ensures var s := pre + Utf8Encode(t) + [0] + post;
            CString(s, |pre|).Some? && CString(s, |pre|).value.0 == t &&
            CString(s, |pre|).value.1 == |pre| + |Utf8Encode(t)| + 1
  {
    var e := Utf8Encode(t);
    var s := pre + e + [0] + post;
    var z := |pre| + |e|;
    assert NulAt(s, |pre|) == Some(z) by {
      EncodedNulAt(t, pre, post);
    }
    assert Utf8Decode(s[|pre|..z]) == Some(t) by {
      assert s[|pre|..z] == e;
      Utf8RoundTrip(t);
    }
    CStringAt(s, |pre|, z, t);
  }

  /** The text before the first NUL, when it decodes, is the string read. */
  lemma CStringAt(s: seq<Byte>, i: nat, z: nat, t: string)
    requires i <= z < |s| && NulAt(s, i) == Some(z) && Utf8Decode(s[i..z]) == Some(t)
    ensures CString(s, i).Some? && CString(s, i).value.0 == t && CString(s, i).value.1 == z + 1
  {
  }

  lemma EncodedNulAt(t: string, pre: seq<Byte>, post: seq<Byte>)
    requires forall k :: 0 <= k < |t| ==> t[k] != 0 as char
    ensures NulAt(pre + Utf8Encode(t) + [0] + post, |pre|) == Some(|pre| + |Utf8Encode(t)|)
  {
    var e := Utf8Encode(t);
    var s := pre + e + [0] + post;
    EncodeHasNoNul(t);
    forall k | |pre| <= k < |pre| + |e|
      ensures s[k] != 0
    {
      assert s[k] == e[k - |pre|];
    }
    NulAtFirst(s, |pre|, |pre| + |e|);
  }

  lemma {:induction false} NulAtFirst(s: seq<Byte>, i: nat, z: nat)
    requires i <= z < |s| && s[z] == 0 && forall k :: i <= k < z ==> s[k] != 0
    ensures NulAt(s, i) == Some(z)
    decreases z - i
  {
    if i < z {
      NulAtFirst(s, i + 1, z);
    }
  }

  /** The UTF-8 encoding of a text without NUL characters has no zero byte. */
  lemma {:induction false} EncodeHasNoNul(t: string)
    requires forall k :: 0 <= k < |t| ==> t[k] != 0 as char
    ensures forall k :: 0 <= k < |Utf8Encode(t)| ==> Utf8Encode(t)[k] != 0
    decreases |t|
  {
    if t != [] {
      EncodeHasNoNul(t[1..]);
      var e := EncodeChar(t[0]);
      assert forall k :: 0 <= k < |e| ==> e[k] != 0;
    }
  }

  /** `DirectoryEntry::parse`: 18 bytes of fixed fields, then `preload_length` bytes of preload data. */
  function DirectoryEntryAt(s: seq<Byte>, i: nat): (r: Option<(DirectoryEntry, nat)>)
    ensures r.Some? ==> r.value.1 == i + 18 + r.value.0.preloadLength && r.value.1 <= |s|
    ensures r.Some? ==> var e := r.value.1; r.value.0.preload == s[i + 18..e]
    ensures r.None? <==> i + 18 > |s| || i + 18 + LeU16(s, i + 4) > |s|
  {
    if i + 18 > |s| then None
    else
      var preloadLength := LeU16(s, i + 4);
      if i + 18 + preloadLength > |s| then None
      else
        Some((DirectoryEntry(LeU32(s, i), preloadLength, LeU16(s, i + 6), LeU32(s, i + 8), LeU32(s, i + 12),
                             LeU16(s, i + 16), s[i + 18..i + 18 + preloadLength]),
              i + 18 + preloadLength))
  }

  // ---------------------------------------------------------------------
  // Tree

  /** The files of one directory: `(name, entry)` pairs. */
  type Names = seq<(string, DirectoryEntry)>

  /** The directories of one extension. */
  type Dirs = seq<(string, Names)>

  /** The extensions of a tree. */
  type Exts = seq<(string, Dirs)>

  /** `many_till(pair(cstring, DirectoryEntry::parse), tag(&[0]))`: names until an empty one. */
  function NamesAt(s: seq<Byte>, i: nat): (r: Option<(Names, nat)>)
    requires i <= |s|
    ensures r.Some? ==> i < r.value.1 <= |s|
    ensures r.Some? ==> forall k :: 0 <= k < |r.value.0| ==> r.value.0[k].0 != []
    decreases |s| - i
  {
    if i < |s| && s[i] == 0 then Some(([], i + 1))
    else match CString(s, i)
      case None => None
      case Some((name, j)) =>
        match DirectoryEntryAt(s, j)
        case None => None
        case Some((e, k)) =>
          match NamesAt(s, k)
          case None => None
          case Some((rest, end)) => Some(([(name, e)] + rest, end))
  }

  /** `many_till(pair(cstring, names), tag(&[0]))`: directories until an empty one. */
  function DirsAt(s: seq<Byte>, i: nat): (r: Option<(Dirs, nat)>)
    requires i <= |s|
    ensures r.Some? ==> i < r.value.1 <= |s|
    ensures r.Some? ==> forall k :: 0 <= k < |r.value.0| ==> r.value.0[k].0 != []
    decreases |s| - i
  {
    if i < |s| && s[i] == 0 then Some(([], i + 1))
    else match CString(s, i)
      case None => None
      case Some((dir, j)) =>
        match NamesAt(s, j)
        case None => None
        case Some((names, k)) =>
          match DirsAt(s, k)
          case None => None
          case Some((rest, end)) => Some(([(dir, names)] + rest, end))
  }

  /** `many_till(pair(cstring, dirs), tag(&[0]))`: extensions until an empty one. */
  function ExtsAt(s: seq<Byte>, i: nat): (r: Option<(Exts, nat)>)
    requires i <= |s|
    ensures r.Some? ==> i < r.value.1 <= |s|
    ensures r.Some? ==> forall k :: 0 <= k < |r.value.0| ==> r.value.0[k].0 != []
    decreases |s| - i
  {
    if i < |s| && s[i] == 0 then Some(([], i + 1))
    else match CString(s, i)
      case None => None
      case Some((ext, j)) =>
        match DirsAt(s, j)
        case None => None
        case Some((dirs, k)) =>
          match ExtsAt(s, k)
          case None => None
          case Some((rest, end)) => Some(([(ext, dirs)] + rest, end))
  }

  /** The name list ends right after a zero byte: the empty name that closes it. */
  lemma {:induction false} NamesEnd(s: seq<Byte>, i: nat)
    requires i <= |s|
    ensures NamesAt(s, i).Some? ==> s[NamesAt(s, i).value.1 - 1] == 0
    decreases |s| - i
  {
    if !(i < |s| && s[i] == 0) && CString(s, i).Some? {
      var j := CString(s, i).value.1;
      if DirectoryEntryAt(s, j).Some? {
        NamesEnd(s, DirectoryEntryAt(s, j).value.1);
      }
    }
  }

  /** The directory list ends right after a zero byte: the empty directory that closes it. */
  lemma {:induction false} DirsEnd(s: seq<Byte>, i: nat)
    requires i <= |s|
    ensures DirsAt(s, i).Some? ==> s[DirsAt(s, i).value.1 - 1] == 0
    decreases |s| - i
  {
    if !(i < |s| && s[i] == 0) && CString(s, i).Some? {
      var j := CString(s, i).value.1;
      if NamesAt(s, j).Some? {
        DirsEnd(s, NamesAt(s, j).value.1);
      }
    }
  }

  /** The extension list ends right after a zero byte: the empty extension that closes it. */
  lemma {:induction false} ExtsEnd(s: seq<Byte>, i: nat)
    requires i <= |s|
    ensures ExtsAt(s, i).Some? ==> s[ExtsAt(s, i).value.1 - 1] == 0
    decreases |s| - i
  {
    if !(i < |s| && s[i] == 0) && CString(s, i).Some? {
      var j := CString(s, i).value.1;
      if DirsAt(s, j).Some? {
        ExtsEnd(s, DirsAt(s, j).value.1);
      }
    }
  }

  /**
   * The path of a file: `dir/name.ext`, where a directory of `" "` adds no
   * `dir/`, an extension of `" "` adds no `.ext`, and a name of `" "` is empty.
   */
  function Path(ext: string, dir: string, name: string): (r: string)
    ensures |r| == (if dir == " " then 0 else |dir| + 1) + (if name == " " then 0 else |name|) +
                   (if ext == " " then 0 else |ext| + 1)
    ensures dir != " " ==> r[..|dir| + 1] == dir + "/"
    ensures ext != " " ==> r[|r| - |ext| - 1..] == "." + ext
  {
    var stem := if name == " " then "" else name;
    var file := if ext != " " then stem + "." + ext else stem;
    if dir != " " then dir + "/" + file else file
  }

  /** The files of one directory with their paths, in order. */
  function NameItems(ext: string, dir: string, names: Names): (r: seq<(string, DirectoryEntry)>)
    ensures |r| == |names|
    ensures forall k :: 0 <= k < |names| ==> r[k] == (Path(ext, dir, names[k].0), names[k].1)
  {
    seq(|names|, k requires 0 <= k < |names| => (Path(ext, dir, names[k].0), names[k].1))
  }

  /** The files of the directories of one extension with their paths, in order. */
  function DirItems(ext: string, dirs: Dirs): seq<(string, DirectoryEntry)>
    decreases |dirs|
  {
    if dirs == [] then []
    else DirItems(ext, dirs[..|dirs| - 1]) + NameItems(ext, dirs[|dirs| - 1].0, dirs[|dirs| - 1].1)
  }

  /** Every file of a tree with its path, in the order the loops of `tree` visit them. */
  function TreeItems(exts: Exts): seq<(string, DirectoryEntry)>
    decreases |exts|
  {
    if exts == [] then []
    else TreeItems(exts[..|exts| - 1]) + DirItems(exts[|exts| - 1].0, exts[|exts| - 1].1)
  }

  /** `HashMap::insert` of every item into `m`, in order. */
  function InsertAll(m: map<string, Entry>, items: seq<(string, DirectoryEntry)>): (r: map<string, Entry>)
    decreases |items|
  {
    if items == [] then m
    else
      var last := items[|items| - 1];
      InsertAll(m, items[..|items| - 1])[last.0 := Entry(last.0, last.1)]
  }

  /** The map `tree` builds from a decoded tree. */
  function TreeMap(exts: Exts): map<string, Entry> {
    InsertAll(map[], TreeItems(exts))
  }

  /** Inserting two runs of items is inserting their concatenation. */
  lemma {:induction false} InsertAllAppend(m: map<string, Entry>, a: seq<(string, DirectoryEntry)>, b: seq<(string, DirectoryEntry)>)
    ensures InsertAll(m, a + b) == InsertAll(InsertAll(m, a), b)
    decreases |b|
  {
    if b != [] {
      var n := |b| - 1;
      assert (a + b)[..|a + b| - 1] == a + b[..n];
      InsertAllAppend(m, a, b[..n]);
    } else {
      assert a + b == a;
    }
  }

  lemma AppendItem(m: map<string, Entry>, items: seq<(string, DirectoryEntry)>, x: (string, DirectoryEntry))
    ensures InsertAll(m, items + [x]) == InsertAll(m, items)[x.0 := Entry(x.0, x.1)]
  {
    assert (items + [x])[..|items|] == items;
  }

  lemma NameItemsSnoc(ext: string, dir: string, names: Names, n: nat)
    requires n < |names|
    ensures NameItems(ext, dir, names[..n + 1]) == NameItems(ext, dir, names[..n]) + [(Path(ext, dir, names[n].0), names[n].1)]
  {
  }

  /** Item `k` has path `p` and no later item has it. */
  predicate LastWithPath(items: seq<(string, DirectoryEntry)>, p: string, k: int) {
    0 <= k < |items| && items[k].0 == p && forall j :: k < j < |items| ==> items[j].0 != p
  }

  /**
   * The last item with a given path wins: a path is a key exactly when
   * some item has it, and then maps to the entry of the last such item.
   */
  lemma InsertAllLastWins(items: seq<(string, DirectoryEntry)>, p: string)
    ensures p in InsertAll(map[], items) <==> exists k :: 0 <= k < |items| && items[k].0 == p
    ensures forall k :: LastWithPath(items, p, k) ==> InsertAll(map[], items)[p] == Entry(p, items[k].1)
  {
    InsertAllHasPath(items, p);
    forall k | LastWithPath(items, p, k)
      ensures InsertAll(map[], items)[p] == Entry(p, items[k].1)
    {
      InsertAllLastEntry(items, p, k);
    }
  }

  /** A path is a key exactly when some item has it. */
  lemma {:induction false} InsertAllHasPath(items: seq<(string, DirectoryEntry)>, p: string)
    ensures p in InsertAll(map[], items) <==> exists k :: 0 <= k < |items| && items[k].0 == p
    decreases |items|
  {
    if items != [] {
      var n := |items| - 1;
      var init := items[..n];
      InsertAllHasPath(init, p);
      if items[n].0 != p {
        assert forall k :: 0 <= k < n ==> init[k] == items[k];
      }
    }
  }

  /** The last item with a path gives the entry stored under it. */
  lemma {:induction false} InsertAllLastEntry(items: seq<(string, DirectoryEntry)>, p: string, k: int)
    requires LastWithPath(items, p, k)
    ensures p in InsertAll(map[], items) && InsertAll(map[], items)[p] == Entry(p, items[k].1)
    decreases |items|
  {
    var n := |items| - 1;
    if k < n {
      var init := items[..n];
      assert init[k] == items[k];
      assert LastWithPath(init, p, k);
      InsertAllLastEntry(init, p, k);
    }
  }

  /** Every stored entry records its own path. */
  lemma {:induction false} InsertAllPaths(items: seq<(string, DirectoryEntry)>)
    ensures forall p :: p in InsertAll(map[], items) ==> InsertAll(map[], items)[p].path == p
    decreases |items|
  {
    if items != [] {
      InsertAllPaths(items[..|items| - 1]);
    }
  }

  /**
   * The mapping closure of `tree`: three nested loops over extensions,
   * directories and names that insert each file under its path. The two
   * inner loops are `InsertDirs` and `InsertNames`.
   */
  method BuildTree(exts: Exts) returns (m: map<string, Entry>)
    ensures m == TreeMap(exts)
  {
    m := map[];
    for e := 0 to |exts|
      invariant m == InsertAll(map[], TreeItems(exts[..e]))
    {
      var (ext, dirs) := exts[e];
      ghost var before := m;
      m := InsertDirs(m, ext, dirs);
      assert exts[..e + 1][..e] == exts[..e];
      InsertAllAppend(map[], TreeItems(exts[..e]), DirItems(ext, dirs));
    }
    assert exts[..|exts|] == exts;
  }

  /** The directory loop of `tree` for one extension. */
  method InsertDirs(m0: map<string, Entry>, ext: string, dirs: Dirs) returns (m: map<string, Entry>)
    ensures m == InsertAll(m0, DirItems(ext, dirs))
  {
    m := m0;
    for d := 0 to |dirs|
      invariant m == InsertAll(m0, DirItems(ext, dirs[..d]))
    {
      var (dir, names) := dirs[d];
      m := InsertNames(m, ext, dir, names);
      assert dirs[..d + 1][..d] == dirs[..d];
      InsertAllAppend(m0, DirItems(ext, dirs[..d]), NameItems(ext, dir, names));
    }
    assert dirs[..|dirs|] == dirs;
  }

  /** The name loop of `tree` for one directory: each file is inserted under its path, a later one replacing an earlier one. */
  method InsertNames(m0: map<string, Entry>, ext: string, dir: string, names: Names) returns (m: map<string, Entry>)
    ensures m == InsertAll(m0, NameItems(ext, dir, names))
  {
    m := m0;
    for n := 0 to |names|
      invariant m == InsertAll(m0, NameItems(ext, dir, names[..n]))
    {
      var (name, dirEntry) := names[n];
      var path := Path(ext, dir, name);
      NameItemsSnoc(ext, dir, names, n);
      AppendItem(m0, NameItems(ext, dir, names[..n]), (path, dirEntry));
      m := m[path := Entry(path, dirEntry)];
    }
    assert names[..|names|] == names;
  }

  /** `tree`: the decoded tree and the map built from it. */
  function Tree(s: seq<Byte>): (r: Option<(map<string, Entry>, nat)>)
    ensures r.Some? ==> r.value.1 <= |s|
  {
    match ExtsAt(s, 0)
    case None => None
    case Some((exts, end)) => Some((TreeMap(exts), end))
  }

  /** `limit(p, n)`: run `p` on exactly the next `n` bytes; whatever it leaves is skipped. */
  function Limit<T>(p: seq<Byte> -> Option<(T, nat)>, n: nat, s: seq<Byte>, i: nat): (r: Option<(T, nat)>)
    ensures r.Some? ==> r.value.1 == i + n && r.value.1 <= |s|
    ensures r.Some? <==> i + n <= |s| && p(s[i..i + n]).Some?
  {
    if i + n > |s| then None
    else match p(s[i..i + n])
      case None => None
      case Some((v, _)) => Some((v, i + n))
  }

  // ---------------------------------------------------------------------
  // Version-2 trailer

  /** `ArchiveMD5Entry::parse`: three `u32` fields and a 16-byte checksum. */
  function ArchiveMd5EntryAt(s: seq<Byte>, i: nat): (r: Option<(ArchiveMd5Entry, nat)>)
    ensures r.Some? <==> i + 28 <= |s|
    ensures r.Some? ==> r.value.1 == i + 28 && |r.value.0.checksum| == 16
  {
    if i + 28 > |s| then None
    else Some((ArchiveMd5Entry(LeU32(s, i), LeU32(s, i + 4), LeU32(s, i + 8), s[i + 12..i + 28]), i + 28))
  }

  /** `count` archive MD5 records. */
  function ArchiveMd5sAt(s: seq<Byte>, i: nat, count: nat): (r: Option<(seq<ArchiveMd5Entry>, nat)>)
    requires i <= |s|
    ensures r.Some? <==> i + 28 * count <= |s|
    ensures r.Some? ==> |r.value.0| == count && r.value.1 == i + 28 * count
    decreases count
  {
    if count == 0 then Some(([], i))
    else match ArchiveMd5EntryAt(s, i)
      case None => None
      case Some((e, j)) =>
        match ArchiveMd5sAt(s, j, count - 1)
        case None => None
        case Some((rest, k)) => Some(([e] + rest, k))
  }

  /** `LocalMD5::parse`: three 16-byte checksums. */
  function LocalMd5At(s: seq<Byte>, i: nat): (r: Option<(LocalMd5, nat)>)
    ensures r.Some? <==> i + 48 <= |s|
    ensures r.Some? ==> r.value.1 == i + 48
  {
    if i + 48 > |s| then None
    else Some((LocalMd5(s[i..i + 16], s[i + 16..i + 32], s[i + 32..i + 48]), i + 48))
  }

  /** `Signature::parse`: a length-prefixed public key and a length-prefixed signature. */
  function SignatureAt(s: seq<Byte>, i: nat): (r: Option<(Signature, nat)>)
    ensures r.Some? ==> r.value.1 == i + 8 + |r.value.0.publicKey| + |r.value.0.signature| && r.value.1 <= |s|
  {
    if i + 4 > |s| then None
    else
      var keyLength := LeU32(s, i);
      if i + 4 + keyLength + 4 > |s| then None
      else
        var j := i + 4 + keyLength;
        var sigLength := LeU32(s, j);
        if j + 4 + sigLength > |s| then None
        else Some((Signature(s[i + 4..j], s[j + 4..j + 4 + sigLength]), j + 4 + sigLength))
  }

  /** Decode `Some` only when `c` holds, as `Cond` does; nothing is consumed otherwise. */
  function Cond<T>(c: bool, r: Option<(T, nat)>, i: nat): Option<(Option<T>, nat)> {
    if !c then Some((None, i))
    else match r
      case None => None
      case Some((v, j)) => Some((Some(v), j))
  }

  /**
   * `Vpk::parse` before its error mapping: header, the tree limited to
   * `tree_length` bytes, `data_length` skipped bytes, then the archive
   * MD5 records, the local MD5 block and the signature, each only in
   * version 2 and when its length is non-zero.
   */
  function VpkAt(s: seq<Byte>): Option<(Vpk, nat)> {
    match HeaderAt(s, 0)
    case None => None
    case Some((h, i)) =>
      match Limit(Tree, h.treeLength, s, i)
      case None => None
      case Some((tree, j)) =>
        var skip := DataLength(h);
        if j + skip > |s| then None
        else
          var md5Count := ArchiveMd5Length(h) / 28;
          match Cond(h.version == 2 && ArchiveMd5Length(h) > 0, ArchiveMd5sAt(s, j + skip, md5Count), j + skip)
          case None => None
          case Some((md5s, k)) =>
            if k > |s| then None
            else match Cond(h.version == 2 && LocalMd5Length(h) > 0, LocalMd5At(s, k), k)
              case None => None
              case Some((local, l)) =>
                match Cond(h.version == 2 && SignatureLength(h) > 0, SignatureAt(s, l), l)
                case None => None
                case Some((signature, m)) => Some((Vpk(h, tree, md5s, local, signature), m))
  }

  /** `Vpk::parse`. */
  function Parse(s: seq<Byte>): (r: Result<Vpk, Error>)
    ensures r.Ok? ==> r.value.header.signature == SIGNATURE
    ensures r.Ok? && r.value.header.version == 1 ==> r.value.archiveMd5s.None? && r.value.localMd5.None? && r.value.signature.None?
    ensures r.Ok? && r.value.header.version == 2 && ArchiveMd5Length(r.value.header) > 0 ==>
              r.value.archiveMd5s.Some? && |r.value.archiveMd5s.value| == ArchiveMd5Length(r.value.header) / 28
    ensures r.Ok? && r.value.header.version == 2 ==> r.value.localMd5.Some?
  {
    match VpkAt(s)
    case None => Err(Error.Parse)
    case Some((v, _)) => Ok(v)
  }

  /** `Vpk::lookup`. */
  function Lookup(v: Vpk, path: string): (r: Option<Entry>)
    ensures r.Some? <==> path in v.tree
    ensures r.Some? ==> r.value == v.tree[path]
  {
    if path in v.tree then Some(v.tree[path]) else None
  }
}
