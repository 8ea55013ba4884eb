/**
 * The entry point (src/main.cpp): its own copy of `has_ext`, which is the
 * same test as the GUI's, and the exit status of `main`.
 */
module Program {
  import opened Gui

  /** `has_ext` accepts ".png", "X.PnG" and "scan.PNG". */
  lemma HasExtAcceptsExamples()
    ensures HasExt(".png") && HasExt("X.PnG") && HasExt("scan.PNG")
  {
    assert HasExt(".png") by {
      AcceptedWhen(".png");
    }
    assert HasExt("X.PnG") by {
      AcceptedWhen("X.PnG");
    }
    assert HasExt("scan.PNG") by {
      AcceptedWhen("scan.PNG");
    }
  }

  /** A path whose last four characters upper-case to ".PNG" one by one is accepted. */
  lemma AcceptedWhen(path: string)
    requires |path| >= 4
    requires ToUpper(path[|path| - 4]) == '.' && ToUpper(path[|path| - 3]) == 'P'
    requires ToUpper(path[|path| - 2]) == 'N' && ToUpper(path[|path| - 1]) == 'G'
    ensures HasExt(path)
  {
    var u := Upper(path[|path| - 4..]);
    assert u == [u[0], u[1], u[2], u[3]];
  }

  /** A path whose `k`-th character from the end of the extension differs from ".PNG" is rejected. */
  lemma RejectedAt(path: string, k: nat)
    requires |path| >= 4 && k < 4 && ToUpper(path[|path| - 4 + k]) != ".PNG"[k]
    ensures !HasExt(path)
  {
    assert Upper(path[|path| - 4..])[k] == ToUpper(path[|path| - 4 + k]);
  }

  /** `has_ext` rejects "png", "a.pngx", "" and "a.jpg". */
  lemma HasExtRejectsExamples()
    ensures !HasExt("png") && !HasExt("a.pngx") && !HasExt("") && !HasExt("a.jpg")
  {
    RejectedAt("a.pngx", 0);
    RejectedAt("a.jpg", 1);
  }

  /** `EXIT_SUCCESS` and `EXIT_FAILURE`. */
  datatype ExitStatus = Success | Failure

  /**
   * `main`: failure exactly when `libdeflate_alloc_compressor(12)` returns
   * null, which the model receives as `compressorReady == false`.
   */
  function ExitCode(compressorReady: bool): (status: ExitStatus)
    ensures status == Failure <==> !compressorReady
  {
    if !compressorReady then Failure else Success
  }
}
