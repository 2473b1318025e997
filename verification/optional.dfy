/** The absent-or-present value used for the allocator's "maybe a block" results and for the
    process-wide pool that may not have been initialised yet. */
module Optional {

  datatype Option<+T> = None | Some(value: T)
}
