/** A value that may be absent: stands for a C# nullable reference
    (`string?`, `Message?`), with `None` playing the part of `null`. */
module Optional {

  datatype Option<+T> = None | Some(value: T)
}
