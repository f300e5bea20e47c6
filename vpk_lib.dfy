/**
 * The hand-written VPK reader of `steamkit-vpk/src/lib.rs`: a header
 * decoder with its own error cases, `cstring`, and a `tree` walk that
 * moves an input cursor through three nested loops and returns what
 * follows the tree. The tree grammar and the directory entry layout are
 * the ones `VpkParser` decodes, and `Tree` is proved to stop exactly where
 * that decoder does.
 */
module VpkLib {
  import opened Wrappers
  import opened Bytes
  import P = VpkParser

  const SIGNATURE: nat := 0x55aa1234
  const V1_LENGTH: nat := 4 * 3
  const V2_LENGTH: nat := 4 * 7

  datatype Error = Parse | InvalidSignature(signature: nat) | UnsupportedVersion(version: nat)

  datatype Header =
    | V1(signature: nat, version: nat, treeLength: nat)
    | V2(signature: nat, version: nat, treeLength: nat, dataLength: nat, md5Length: nat,
         externalMd5Length: nat, signatureLength: nat)

  /** `Header::tree_length`: the field both variants carry. */
  function TreeLength(h: Header): nat {
    h.treeLength
  }

  /**
   * `header`: three `u32` fields; a wrong signature is `InvalidSignature`,
   * version 1 stops there, version 2 reads four more fields, and any other
   * version is `UnsupportedVersion`. Running out of input is `Parse`.
   */
  function HeaderAt(s: seq<Byte>, i: nat): (r: Result<(Header, nat), Error>)
    ensures i + 12 > |s| ==> r == Err(Parse)
    ensures i + 12 <= |s| && LeU32(s, i) != SIGNATURE ==> r == Err(InvalidSignature(LeU32(s, i)))
    ensures i + 12 <= |s| && LeU32(s, i) == SIGNATURE && LeU32(s, i + 4) != 1 && LeU32(s, i + 4) != 2 ==>
              r == Err(UnsupportedVersion(LeU32(s, i + 4)))
    ensures i + 12 <= |s| && LeU32(s, i) == SIGNATURE && LeU32(s, i + 4) == 1 ==>
              r == Ok((V1(SIGNATURE, 1, LeU32(s, i + 8)), i + V1_LENGTH))
    ensures i + 12 <= |s| && LeU32(s, i) == SIGNATURE && LeU32(s, i + 4) == 2 ==>
              (r.Ok? <==> i + 28 <= |s|) && (r.Err? ==> r.error == Parse) &&
              (r.Ok? ==> r.value.0.V2? && r.value.1 == i + V2_LENGTH)
  {
    if i + 12 > |s| then Err(Parse)
    else
      var signature, version, treeLength := LeU32(s, i), LeU32(s, i + 4), LeU32(s, i + 8);
      if signature != SIGNATURE then Err(InvalidSignature(signature))
      else if version == 1 then Ok((V1(signature, version, treeLength), i + 12))
      else if version == 2 then
        if i + 28 > |s| then Err(Parse)
        else Ok((V2(signature, version, treeLength, LeU32(s, i + 12), LeU32(s, i + 16), LeU32(s, i + 20), LeU32(s, i + 24)),
                 i + 28))
      else Err(UnsupportedVersion(version))
  }

  /** Whether a header passes the checks `HeaderV2::parse` makes and this reader does not. */
  predicate Md5Checked(h: Header) {
    h.V1? || (h.md5Length % 28 == 0 && h.externalMd5Length == 48)
  }

  /**
   * The two header decoders agree: the derived one accepts exactly the
   * headers this one accepts whose MD5 lengths pass its checks, with the
   * same fields and the same length.
   */
  lemma HeaderAgrees(s: seq<Byte>, i: nat)
    ensures P.HeaderAt(s, i).Some? <==> HeaderAt(s, i).Ok? && Md5Checked(HeaderAt(s, i).value.0)
    ensures P.HeaderAt(s, i).Some? ==>
              var (h, j) := P.HeaderAt(s, i).value;
              var (g, k) := HeaderAt(s, i).value;
              j == k && h.signature == g.signature && h.version == g.version && TreeLength(g) == h.treeLength &&
              P.DataLength(h) == (if g.V2? then g.dataLength else 0) &&
              P.ArchiveMd5Length(h) == (if g.V2? then g.md5Length else 0) &&
              P.LocalMd5Length(h) == (if g.V2? then g.externalMd5Length else 0) &&
              P.SignatureLength(h) == (if g.V2? then g.signatureLength else 0)
  {
  }

  /** `cstring`, failing with `Parse`. */
  function CString(s: seq<Byte>, i: nat): (r: Result<(string, nat), Error>)
    requires i <= |s|
    ensures r.Ok? <==> P.CString(s, i).Some?
    ensures r.Ok? ==> r.value == P.CString(s, i).value
    ensures r.Err? ==> r.error == Parse
  {
    match P.CString(s, i)
    case None => Err(Parse)
    case Some(v) => Ok(v)
  }

  /** Where the tree that starts at `i` ends, by the `VpkParser` grammar. */
  function ExtsEnd(s: seq<Byte>, i: nat): Result<nat, Error>
    requires i <= |s|
  {
    match P.ExtsAt(s, i)
    case None => Err(Parse)
    case Some((_, end)) => Ok(end)
  }

  /** Where the tree ends when its current extension's directory list starts at `i`. */
  function AfterDirs(s: seq<Byte>, i: nat): Result<nat, Error>
    requires i <= |s|
  {
    match P.DirsAt(s, i)
    case None => Err(Parse)
    case Some((_, k)) => ExtsEnd(s, k)
  }

  /** Where the tree ends when its current directory's name list starts at `i`. */
  function AfterNames(s: seq<Byte>, i: nat): Result<nat, Error>
    requires i <= |s|
  {
    match P.NamesAt(s, i)
    case None => Err(Parse)
    case Some((_, k)) => AfterDirs(s, k)
  }

  /** One step of the extension loop: an empty extension ends the tree, any other opens its directory list. */
  lemma ExtStep(s: seq<Byte>, i: nat)
    requires i <= |s|
    ensures CString(s, i).Err? ==> ExtsEnd(s, i) == Err(Parse)
    ensures CString(s, i).Ok? && CString(s, i).value.0 == [] ==> ExtsEnd(s, i) == Ok(CString(s, i).value.1)
    ensures CString(s, i).Ok? && CString(s, i).value.0 != [] ==> ExtsEnd(s, i) == AfterDirs(s, CString(s, i).value.1)
  {
  }

  /** One step of the directory loop: an empty directory closes the extension, any other opens its name list. */
  lemma DirStep(s: seq<Byte>, i: nat)
    requires i <= |s|
    ensures CString(s, i).Err? ==> AfterDirs(s, i) == Err(Parse)
    ensures CString(s, i).Ok? && CString(s, i).value.0 == [] ==> AfterDirs(s, i) == ExtsEnd(s, CString(s, i).value.1)
    ensures CString(s, i).Ok? && CString(s, i).value.0 != [] ==> AfterDirs(s, i) == AfterNames(s, CString(s, i).value.1)
  {
  }

  /** One step of the name loop: an empty name closes the directory, any other is followed by a directory entry. */
  lemma NameStep(s: seq<Byte>, i: nat)
    requires i <= |s|
    ensures CString(s, i).Err? ==> AfterNames(s, i) == Err(Parse)
    ensures CString(s, i).Ok? && CString(s, i).value.0 == [] ==> AfterNames(s, i) == AfterDirs(s, CString(s, i).value.1)
    ensures CString(s, i).Ok? && CString(s, i).value.0 != [] ==>
              var j := CString(s, i).value.1;
              match P.DirectoryEntryAt(s, j)
              case None => AfterNames(s, i) == Err(Parse)
              case Some((_, k)) => i < k <= |s| && AfterNames(s, i) == AfterNames(s, k)
  {
  }

  /**
   * `tree`: read extensions until an empty one; for each, directories
   * until an empty one; for each, names until an empty one, each followed
   * by a directory entry. Returns the position after the tree; every
   * failure is `Parse`.
   */
  method Tree(s: seq<Byte>) returns (r: Result<nat, Error>)
    ensures r == ExtsEnd(s, 0)
  {
    var pos := 0;
    while true
      invariant pos <= |s| && ExtsEnd(s, pos) == ExtsEnd(s, 0)
      decreases |s| - pos
    {
      var ext := CString(s, pos);
      ExtStep(s, pos);
      if ext.Err? {
        return Err(Parse);
      }
      ghost var start := pos;
      pos := ext.value.1;
      if ext.value.0 == [] {
        return Ok(pos);
      }
      while true
        invariant start < pos <= |s| && AfterDirs(s, pos) == ExtsEnd(s, 0)
        decreases |s| - pos
      {
        var dir := CString(s, pos);
        DirStep(s, pos);
        if dir.Err? {
          return Err(Parse);
        }
        ghost var dirStart := pos;
        pos := dir.value.1;
        if dir.value.0 == [] {
          break;
        }
        while true
          invariant dirStart < pos <= |s| && AfterNames(s, pos) == ExtsEnd(s, 0)
          decreases |s| - pos
        {
          var name := CString(s, pos);
          NameStep(s, pos);
          if name.Err? {
            return Err(Parse);
          }
          pos := name.value.1;
          if name.value.0 == [] {
            break;
          }
          var entry := P.DirectoryEntryAt(s, pos);
          if entry.None? {
            return Err(Parse);
          }
          pos := entry.value.1;
        }
      }
    }
  }
}
