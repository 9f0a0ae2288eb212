/** The FSInfo sector of a FAT32 volume: the number of free clusters and the last cluster allocated. */
module FsInfoSector {
  import opened Bytes
  import opened Geometry

  datatype Option<T> = None | Some(value: T)

  /** The FSInfo sector of a volume comes before its FATs; with just one reserved sector it does not. */
  predicate InfoApart(g: Geometry) { g.volbase + 1 < g.fatbase }

  /** The FSInfo sector of a FAT32 volume. */
  function FsInfo(free: nat, last: nat): (w: Sector)
  {
    var z: seq<byte> := seq(512, i => 0);
    StoreDword(StoreDword(StoreDword(StoreDword(StoreWord(z, 510, 0xAA55), 0, 0x41615252), 484, 0x61417272), 488,
    free), 492, last)
  }

  /** What mounting reads from it: the signatures, and the two numbers. */
  lemma FsInfoReadsBack(free: dword, last: dword)
    ensures var w := FsInfo(free, last);
            LoadWord(w, 510) == 0xAA55 && LoadDword(w, 0) == 0x41615252 && LoadDword(w, 484) == 0x61417272
            && LoadDword(w, 488) == free && LoadDword(w, 492) == last
  {
    hide StoreDword, StoreWord, LoadWord, LoadDword;
    var z: seq<byte> := seq(512, i => 0);
    var a := StoreWord(z, 510, 0xAA55);
    var b := StoreDword(a, 0, 0x41615252);
    var c := StoreDword(b, 484, 0x61417272);
    var d := StoreDword(c, 488, free);
    WordApart(a, 0, 0x41615252, 510);
    WordApart(b, 484, 0x61417272, 510);
    WordApart(c, 488, free, 510);
    WordApart(d, 492, last, 510);
    DwordApart(b, 484, 0x61417272, 0);
    DwordApart(c, 488, free, 0);
    DwordApart(d, 492, last, 0);
    DwordApart(c, 488, free, 484);
    DwordApart(d, 492, last, 484);
    DwordApart(d, 492, last, 488);
  }

  lemma WordApart(s: seq<byte>, o: nat, w: nat, p: nat)
    requires o + 4 <= p && p + 2 <= |s|
    ensures LoadWord(StoreDword(s, o, w), p) == LoadWord(s, p)
  {
  }

  lemma DwordApart(s: seq<byte>, o: nat, w: nat, p: nat)
    requires p + 4 <= o && o + 4 <= |s|
    ensures LoadDword(StoreDword(s, o, w), p) == LoadDword(s, p)
  {
  }

  /** The signatures of FSInfo: RRaA at the start, rrAa before the numbers, and the two bytes of a boot sector. */
  predicate InfoSigned(w: Sector) {
    && w[0] == 0x52 && w[1] == 0x52 && w[2] == 0x61 && w[3] == 0x41
    && w[484] == 0x72 && w[485] == 0x72 && w[486] == 0x41 && w[487] == 0x61
    && w[510] == 0x55 && w[511] == 0xAA
  }

  lemma SignedExactly(w: Sector)
    ensures InfoSigned(w) <==>
              LoadWord(w, 510) == 0xAA55 && LoadDword(w, 0) == 0x4161_5252 && LoadDword(w, 484) == 0x6141_7272
  {
  }

  /** The free count and the last cluster, byte by byte. */
  function InfoNumbers(w: Sector): (dword, dword) {
    if !InfoSigned(w) then (0xFFFF_FFFF, 0xFFFF_FFFF)
    else (w[488] as nat + 0x100 * w[489] as nat + 0x1_0000 * w[490] as nat + 0x100_0000 * w[491] as nat,
          w[492] as nat + 0x100 * w[493] as nat + 0x1_0000 * w[494] as nat + 0x100_0000 * w[495] as nat)
  }

  /** The numbers that sync_fs stores are those that mounting reads. */
  lemma InfoKnown(free: dword, last: dword)
    ensures InfoSigned(FsInfo(free, last)) && InfoNumbers(FsInfo(free, last)) == (free, last)
  {
    hide FsInfo;
    FsInfoReadsBack(free, last);
    SignedExactly(FsInfo(free, last));
  }

  /** What mounting keeps of FSInfo: whether there is none to write, the free count and the last cluster
      allocated. */
  datatype Info = Info(off: bool, free: dword, last: dword)

  /** The end of mounting: FSInfo is looked for behind the boot sector b of a FAT32 volume that names it, and
      its numbers are taken when its signatures are right. `info` is that sector, if it can be read. */
  method LoadInfo(t: FatType, b: Sector, info: Option<Sector>) returns (r: Info)
    ensures r.off <==> !(t == FAT32 && b[48] == 1 && b[49] == 0 && info.Some?)
    ensures r.off ==> r.free == r.last == 0xFFFF_FFFF
    ensures !r.off ==> (r.free, r.last) == InfoNumbers(info.value)
  {
    r := Info(true, 0xFFFF_FFFF, 0xFFFF_FFFF);
    if t == FAT32 && LoadWord(b, 48) == 1 && info.Some? {
      r := r.(off := false);
      var w := info.value;
      SignedExactly(w);
      if LoadWord(w, 510) == 0xAA55 && LoadDword(w, 0) == 0x4161_5252 && LoadDword(w, 484) == 0x6141_7272 {
        r := r.(free := LoadDword(w, 488), last := LoadDword(w, 492));
      }
    }
  }
}
