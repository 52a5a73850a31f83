/** Character classes the source's two readers share. */
module Characters {
  /** White space and line ends, as `trim` and `\s` understand them. */
  predicate IsSpaceCode(n: int) {
    || 0x09 <= n <= 0x0d || n == 0x20 || n == 0xa0 || n == 0x1680 || 0x2000 <= n <= 0x200a
    || n == 0x2028 || n == 0x2029 || n == 0x202f || n == 0x205f || n == 0x3000 || n == 0xfeff
  }

  /** These are the 25 code units there are. */
  lemma SpaceCodes(n: int)
    ensures IsSpaceCode(n)
       <==> n in {9, 10, 11, 12, 13, 32, 160, 5760, 8192, 8193, 8194, 8195, 8196, 8197, 8198, 8199, 8200, 8201, 8202,
                  8232, 8233, 8239, 8287, 12288, 65279}
  {
  }
}
