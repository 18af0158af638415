/**
 Basic vocabulary shared by the model of the Pintos supplemental page table:
 bytes, virtual addresses, frame ids, the page size and an Option type
 standing for nullable pointers.
 */
module Types {

  /** One byte of memory or of a file. */
  newtype byte = b: int | 0 <= b < 256

  /** A user virtual address (`void *va`). Page alignment is a caller contract
      that the table never checks, so it is not part of the type. */
  type VA = nat

  /** An abstract physical frame. The C code stores the kernel virtual address
      returned by the allocator directly into the `struct frame *` field of a
      page and later reads `p->frame->kva`; one id stands for both. */
  type Frame = nat

  /** Size of a page and of a frame, in bytes. */
  const PGSIZE: nat := 4096

  /** `None` stands for a NULL pointer. */
  datatype Option<T> = None | Some(value: T)
}
