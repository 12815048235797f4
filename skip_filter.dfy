/** `should_skip`: the test that keeps bookkeeping and partial files out of
    the library. Both versions share the code and differ only in the sets
    they pass; those sets live in the version modules. */
module SkipFilter {
  import opened Strings

  /** `filename` is one of the excluded names, or ends with an excluded suffix
      (compared case-sensitively, as `str.endswith` does). */
  predicate Excluded(filename: string, excludeFiles: set<string>, excludeExts: set<string>) {
    filename in excludeFiles || exists ext :: ext in excludeExts && EndsWith(filename, ext)
  }

  /** `should_skip`: a membership test, then a loop over the suffix set that
      returns as soon as one suffix matches. */
  method ShouldSkip(filename: string, excludeFiles: set<string>, excludeExts: set<string>)
    returns (skip: bool)
    ensures skip <==> Excluded(filename, excludeFiles, excludeExts)
  {
    if filename in excludeFiles {
      return true;
    }
    var remaining := excludeExts;
    while remaining != {}
      invariant remaining <= excludeExts
      invariant forall ext :: ext in excludeExts && ext !in remaining ==> !EndsWith(filename, ext)
      decreases remaining
    {
      var ext :| ext in remaining;
      if EndsWith(filename, ext) {
        return true;
      }
      remaining := remaining - {ext};
    }
    return false;
  }
}
