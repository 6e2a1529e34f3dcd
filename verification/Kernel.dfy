/** Sizes and error numbers of the machine and the kernel. */
module Kernel {

  const TWO64: nat := 0x1_0000_0000_0000_0000
  const ULONG_MAX: nat := TWO64 - 1

  const PAGE_SIZE: nat := 0x1000
  /** Pages covered by one page-middle-directory entry. */
  const HPAGE_NR: nat := 512

  const EPERM := 1
  const ENOENT := 2
  const ESRCH := 3
  const EINTR := 4
  const EAGAIN := 11
  const EFAULT := 14
  const EINVAL := 22
  const ENOSPC := 28

  /** The first page of the huge page around a page. */
  function Base(page: nat): nat { page - page % HPAGE_NR }

  predicate InBlock(page: int, base: int) { base <= page < base + HPAGE_NR }

  /** The whole huge page around `page` is in the table, and all its slots are alike. */
  ghost predicate HugeBlock<T>(t: seq<T>, page: nat)
    requires page < |t|
  {
    Base(page) + HPAGE_NR <= |t| && forall j :: Base(page) <= j < Base(page) + HPAGE_NR ==> t[j] == t[page]
  }
}
