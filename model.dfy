/** The chapter record that the list file stores (src/model.rs). */
module Model {
  import opened Results

  /** One entry of the chapter list: its title, the page it is read from, and whether it was saved already. */
  datatype Chapter = Chapter(name: string, link: string, isDownload: bool)

  /** An entry as it appears in the list file, where `is_download` may be missing. */
  datatype StoredChapter = StoredChapter(name: string, link: string, isDownload: Option<bool>)

  /** Reading an entry: a missing `is_download` counts as false (`#[serde(default)]`). */
  function Decode(s: StoredChapter): (c: Chapter)
    ensures c.name == s.name && c.link == s.link
    ensures c.isDownload <==> s.isDownload == Some(true)
  {
    Chapter(s.name, s.link, s.isDownload == Some(true))
  }

  /** Writing an entry: the flag is always written out. */
  function Encode(c: Chapter): (s: StoredChapter)
    ensures s.isDownload.Some?
  {
    StoredChapter(c.name, c.link, Some(c.isDownload))
  }

  lemma DecodeEncode(c: Chapter)
    ensures Decode(Encode(c)) == c
  {
  }

  /** A list written by this program reads back as it was. */
  lemma {:induction false} DecodeEncodeList(cs: seq<Chapter>)
    ensures |cs| == |EncodeList(cs)|
    ensures DecodeList(EncodeList(cs)) == cs
  {
    if cs != [] {
      DecodeEncodeList(cs[1..]);
      DecodeEncode(cs[0]);
    }
  }

  function EncodeList(cs: seq<Chapter>): seq<StoredChapter> {
    if cs == [] then [] else [Encode(cs[0])] + EncodeList(cs[1..])
  }

  function DecodeList(ss: seq<StoredChapter>): seq<Chapter> {
    if ss == [] then [] else [Decode(ss[0])] + DecodeList(ss[1..])
  }
}
