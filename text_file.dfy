/** The output file the converter writes: a stream opened for writing that
    text is appended to, one `fputs` or `fprintf` at a time. */
module Output {
  import opened Text

  class TextFile {
    /** Everything written to the file so far. */
    var content: string

    /** `fopen(path, "w")`: the file exists and is empty. */
    constructor ()
      ensures content == ""
    {
      content := "";
    }

    /** `fputs(s, file)`. */
    method Puts(s: string)
      modifies this
      ensures content == old(content) + s
    {
      content := content + s;
    }

    /** `fprintf(file, "%-*s", width, s)`: left-aligned in `width` columns. */
    method PrintLeft(s: string, width: nat)
      modifies this
      ensures content == old(content) + AlignLeft(s, width)
    {
      content := content + AlignLeft(s, width);
    }

    /** `fprintf(file, "%*s", width, s)`: right-aligned in `width` columns. */
    method PrintRight(s: string, width: nat)
      modifies this
      ensures content == old(content) + AlignRight(s, width)
    {
      content := content + AlignRight(s, width);
    }
  }
}
