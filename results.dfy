/** The exceptions the modelled Python code raises, as values. */
module Results {

  datatype Error =
    | IndexError        // a read past the end of the buffer (`buffer[index]`)
    | MalformedVarint   // the scanner's ValueError("Malformed varint encoding")
    | BlockFileMissing  // os.path.getsize on a block that has no file

  datatype Result<T> = Ok(value: T) | Err(error: Error)
}
