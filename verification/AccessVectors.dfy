/** Access vectors: the 32-bit permission masks of SELinux, read as sets of bit numbers. */
module AccessVectors {

  /** A permission's position in its vector: `perm->value - 1`. */
  type Bit = b: nat | b < 32

  /** A `u32` permission mask. `|`, `& ~` and `&` are union, difference and intersection. */
  type AV = set<Bit>

  /** `~0U` */
  const ALL_ONES: AV := set b: Bit | 0 <= b < 32

  lemma AllOnesIsTop(a: AV)
    ensures a <= ALL_ONES
  {
  }

  /** The `u16` fields of an access-vector key keep only the low half of a type or class value. */
  function U16(v: nat): (r: nat)
    ensures r < 0x1_0000
    ensures v < 0x1_0000 ==> r == v
  {
    v % 0x1_0000
  }
}
