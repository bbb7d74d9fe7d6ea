/** Sections of an ELF file: an offset into the mapped file stands for a host pointer. */
module Sections {

  /** Where a section lies in the mapped file, its address in the guest, its size. */
  datatype Section = Section(index: int, mem: int, size: nat)

  /** `SectionInfo::containsElfAddress`, whose bounds include the end address. */
  predicate ContainsElfAddress(s: Section, ptr: int) {
    s.index <= ptr <= s.index + s.size
  }

  /** Guest address of a place in a section. */
  function GuestAddress(s: Section, ptr: int): int {
    s.mem + (ptr - s.index)
  }

  /** How far the distance of two sections in the file exceeds that in the guest. */
  function Skew(section: Section, text: Section): int {
    (section.index - text.index) - (section.mem - text.mem)
  }
}
