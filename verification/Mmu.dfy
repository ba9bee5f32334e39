/** What the processor makes of the tables: section 4.3, "32-Bit Paging", and section 4.6, "Access Rights",
    of the Intel SDM Volume 3A, on the words of memory. Pages are 4096 bytes, and CR0.WP is clear. */
module Mmu {
  import opened Bits
  import opened Memory

  datatype Access = Fault | Reached(address: uint32)

  /** A read or write of address va, by user code or by the kernel, with CR3 holding `directory`. */
  function Reach(s: seq<uint32>, directory: uint32, va: uint32, user: bool, write: bool): Access
    requires |s| == WORDS
  {
    var pde := s[directory / 4096 * 1024 + va / 0x400000];
    if pde % 2 == 0 then Fault
    else
      var pte := s[pde / 4096 * 1024 + va / 4096 % 1024];
      if pte % 2 == 0 then Fault
      else if user && (pde / 4 % 2 == 0 || pte / 4 % 2 == 0) then Fault
      else if user && write && (pde / 2 % 2 == 0 || pte / 2 % 2 == 0) then Fault
      else Reached(pte / 4096 * 4096 + va % 4096)
  }
}
