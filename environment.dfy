/** What the storage package gets from its surroundings: files, errors, SHA-256, JSON. */
module Environment {
  import opened ByteStrings

  datatype Option<+T> = None | Some(value: T)

  datatype Result<+T> = Ok(value: T) | Err(error: Error)

  datatype Error =
    | NotFound(path: string)                           // os.ReadFile, os.Open or os.Stat found no readable file
    | Malformed(path: string)                          // json.Unmarshal rejected the file's text
    | RequiredFileMissing(base: string, path: string)  // "required file: <base>/<path> not found"
    | UploadFailed(bucket: string, key: string)        // the object store refused a put

  /** The local disk: a path that is not a key is a file that cannot be read. */
  type FileSystem = map<string, Bytes>

  /** SHA-256 of a byte string, formatted with "%x". */
  type HexSha256 = Bytes -> Bytes

  /** json.Unmarshal of hash.json into a map from test-case name to digest; None when it fails. */
  type CaseDecoder = Bytes -> Option<map<string, Bytes>>
}
