// CHAR16 strings of bootloader/gnu-efi/lib/str.c.
module WideTexts {

  type Char16 = c: nat | 0 < c < 0x1_0000 witness 1

  const NUL: nat := 0

  /** A string without its closing NUL; a pointer into it is the rest of it. */
  type Text = seq<Char16>

  /** The character that a pointer shows: NUL at the end. */
  function Head(s: Text): nat {
    if s == [] then NUL else s[0]
  }
}
