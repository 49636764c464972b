// What several components use.
module Common {
  datatype Option<+T> = None | Some(value: T)

  const MAX_TIME: nat := 0xffff_ffff_ffff_ffff    // Time::kMaxTime, which is also the range of uint64_t

  function Min(a: nat, b: nat): nat {
    if a < b then a else b
  }

  function Max(a: nat, b: int): nat {
    if a < b then b else a
  }
}
