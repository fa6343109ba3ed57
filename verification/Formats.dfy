/** The fields of 32-, 64- and 128-bit encodings. */
module Formats {
  import opened Words
  import opened Words128
  import opened Floats

  function Fields32(ui: U32): Fields { Fields(ui >= TWO31, ui / 0x80_0000 % 0x100, ui % 0x80_0000) }

  function Fields64(ui: U64): Fields {
    Fields(ui >= TWO63, ui / 0x10_0000_0000_0000 % 0x800, ui % 0x10_0000_0000_0000)
  }

  function Fields128(ui: U128): Fields {
    Fields(ui.v64 >= TWO63, ui.v64 / 0x1_0000_0000_0000 % 0x8000, ui.v64 % 0x1_0000_0000_0000 * TWO64 + ui.v0)
  }

  // Sign, exponent and fraction are read off without loss, and put together they are the word again.

  lemma Parts32(ui: U32)
    ensures var x := Fields32(ui);
            && x.exp < 0x100 && x.frac < 0x80_0000
            && ui == (if x.sign then 0x8000_0000 else 0) + x.exp * 0x80_0000 + x.frac
  {
  }

  lemma Parts64(ui: U64)
    ensures var x := Fields64(ui);
            && x.exp < 0x800 && x.frac < 0x10_0000_0000_0000
            && ui == (if x.sign then 0x8000_0000_0000_0000 else 0) + x.exp * 0x10_0000_0000_0000 + x.frac
  {
  }

  lemma Parts128(w: U128)
    ensures var x := Fields128(w);
            && x.exp < 0x8000 && x.frac < 0x1_0000_0000_0000_0000_0000_0000_0000
            && Value(w) == (if x.sign then 0x8000_0000_0000_0000_0000_0000_0000_0000 else 0)
                           + x.exp * 0x1_0000_0000_0000_0000_0000_0000_0000 + x.frac
  {
    Parts64High(w.v64);
  }

  lemma Parts64High(v64: U64)
    ensures v64 == (if v64 >= TWO63 then TWO63 else 0) + v64 / 0x1_0000_0000_0000 % 0x8000 * 0x1_0000_0000_0000
                   + v64 % 0x1_0000_0000_0000
  {
  }
}
