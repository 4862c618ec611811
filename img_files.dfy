/** One entry of the image list: display name, full path and EXIF orientation code. */
module ImgFiles {

  /** The value an entry carries. */
  datatype ImgFile = ImgFile(fileName: string, pathName: string, orientation: int)

  /**
   * The list entry as an object. The list removes entries by identity, so an
   * entry is an object whose fields are fixed once it is created.
   */
  class ImgFileItem {
    const fileName: string
    const pathName: string
    const orientation: int

    constructor (fileName: string, pathName: string, orientation: int)
      ensures Value() == ImgFile(fileName, pathName, orientation)
    {
      this.fileName := fileName;
      this.pathName := pathName;
      this.orientation := orientation;
    }

    function Value(): ImgFile {
      ImgFile(fileName, pathName, orientation)
    }
  }

  /** The values of a list of entries, in order. */
  function Values(items: seq<ImgFileItem>): seq<ImgFile> {
    seq(|items|, i requires 0 <= i < |items| => items[i].Value())
  }

  lemma ValuesAppend(items: seq<ImgFileItem>, item: ImgFileItem)
    ensures Values(items + [item]) == Values(items) + [item.Value()]
  {
  }
}
