/** The abstract file system the tools act on: a map from path strings to
    nodes. Paths are compared as raw strings. */
module FileSystem {

  datatype Node = File(content: string) | Dir

  type FS = map<string, Node>

  /** `Path(p).exists()` */
  predicate Exists(fs: FS, p: string) {
    p in fs
  }

  /** `Path(p).is_dir()` */
  predicate IsDir(fs: FS, p: string) {
    p in fs && fs[p].Dir?
  }

  /** `Path(p).is_file()` */
  predicate IsFile(fs: FS, p: string) {
    p in fs && fs[p].File?
  }

  /** How writing a path goes wrong, when it does. `open(p, 'w')` raises
      (permissions, a missing parent); or the open succeeds and truncates the
      file, and then `f.write` raises (text the encoding cannot represent,
      such as an undecodable byte escaped into the argument) or the buffered
      text is lost when the file is closed (a full disk, an exceeded quota).
      After a successful open the file keeps only its first `kept`
      characters. */
  datatype Fault = OpenFails | WriteFails(kept: nat) | CloseFails(kept: nat)

  /** The paths whose writes go wrong, and how; an input. */
  type Faults = map<string, Fault>

  /** `open(p, 'w')` succeeds; a directory never opens for writing. */
  predicate Opens(fs: FS, p: string, faults: Faults) {
    !IsDir(fs, p) && !(p in faults && faults[p].OpenFails?)
  }

  /** `open(p, 'w')` succeeds and then `f.write` raises. */
  predicate WriteRaises(fs: FS, p: string, faults: Faults) {
    Opens(fs, p, faults) && p in faults && faults[p].WriteFails?
  }

  /** `open(p, 'w')` and `f.write` succeed and closing the file raises. */
  predicate CloseRaises(fs: FS, p: string, faults: Faults) {
    Opens(fs, p, faults) && p in faults && faults[p].CloseFails?
  }

  /** The whole `with open(p, 'w') as f: f.write(...)` block succeeds. */
  predicate Writable(fs: FS, p: string, faults: Faults) {
    !IsDir(fs, p) && p !in faults
  }

  /** The file system after `with open(p, 'w') as f: f.write(text)` once the
      open has succeeded: only `p` changes, and it holds the text, or a
      prefix of it when the write or the close fails. */
  function WriteText(fs: FS, p: string, text: string, faults: Faults): (r: FS)
    requires Opens(fs, p, faults)
    ensures p in r && r[p].File? && r[p].content <= text
    ensures r == fs[p := File(r[p].content)]
    ensures Writable(fs, p, faults) ==> r == fs[p := File(text)]
  {
    if p in faults then
      var kept := if faults[p].kept <= |text| then faults[p].kept else |text|;
      fs[p := File(text[..kept])]
    else
      fs[p := File(text)]
  }

  /** Writing a path twice leaves only the second content. */
  lemma WriteTwice(fs: FS, p: string, a: Node, b: Node)
    ensures fs[p := a][p := b] == fs[p := b]
  {
  }
}
