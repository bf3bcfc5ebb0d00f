/**
 * `oclErrorString` of main.cpp: the name of an OpenCL status code, looked up in a table indexed by
 * the negated code, with the empty string for any code outside the table or in its gap.
 */
module OclErrors {

  /** `cl_int`: a signed 32-bit integer. */
  newtype ClInt = x: int | -0x8000_0000 <= x < 0x8000_0000

  /** The first run of the table `errorString`: the names of the codes 0 down to -12. */
  const GeneralErrors: seq<string> := [
      "CL_SUCCESS",
      "CL_DEVICE_NOT_FOUND",
      "CL_DEVICE_NOT_AVAILABLE",
      "CL_COMPILER_NOT_AVAILABLE",
      "CL_MEM_OBJECT_ALLOCATION_FAILURE",
      "CL_OUT_OF_RESOURCES",
      "CL_OUT_OF_HOST_MEMORY",
      "CL_PROFILING_INFO_NOT_AVAILABLE",
      "CL_MEM_COPY_OVERLAP",
      "CL_IMAGE_FORMAT_MISMATCH",
      "CL_IMAGE_FORMAT_NOT_SUPPORTED",
      "CL_BUILD_PROGRAM_FAILURE",
      "CL_MAP_FAILURE"
  ]

  /** The last run of the table: the names of the codes -30 down to -63, the CL_INVALID_... family. */
  const InvalidErrors: seq<string> := [
      "CL_INVALID_VALUE",
      "CL_INVALID_DEVICE_TYPE",
      "CL_INVALID_PLATFORM",
      "CL_INVALID_DEVICE",
      "CL_INVALID_CONTEXT",
      "CL_INVALID_QUEUE_PROPERTIES",
      "CL_INVALID_COMMAND_QUEUE",
      "CL_INVALID_HOST_PTR",
      "CL_INVALID_MEM_OBJECT",
      "CL_INVALID_IMAGE_FORMAT_DESCRIPTOR",
      "CL_INVALID_IMAGE_SIZE",
      "CL_INVALID_SAMPLER",
      "CL_INVALID_BINARY",
      "CL_INVALID_BUILD_OPTIONS",
      "CL_INVALID_PROGRAM",
      "CL_INVALID_PROGRAM_EXECUTABLE",
      "CL_INVALID_KERNEL_NAME",
      "CL_INVALID_KERNEL_DEFINITION",
      "CL_INVALID_KERNEL",
      "CL_INVALID_ARG_INDEX",
      "CL_INVALID_ARG_VALUE",
      "CL_INVALID_ARG_SIZE",
      "CL_INVALID_KERNEL_ARGS",
      "CL_INVALID_WORK_DIMENSION",
      "CL_INVALID_WORK_GROUP_SIZE",
      "CL_INVALID_WORK_ITEM_SIZE",
      "CL_INVALID_GLOBAL_OFFSET",
      "CL_INVALID_EVENT_WAIT_LIST",
      "CL_INVALID_EVENT",
      "CL_INVALID_OPERATION",
      "CL_INVALID_GL_OBJECT",
      "CL_INVALID_BUFFER_SIZE",
      "CL_INVALID_MIP_LEVEL",
      "CL_INVALID_GLOBAL_WORK_SIZE"
  ]

  /** The middle run of the table: seventeen empty entries, for the codes -13 down to -29. */
  const Unnamed: seq<string> := ["", "", "", "", "", "", "", "", "", "", "", "", "", "", "", "", ""]

  /** The table `errorString`, entry `k` naming the status code `-k`. */
  const ErrorStrings: seq<string> := GeneralErrors + Unnamed + InvalidErrors

  /**
   * `oclErrorString(error)`: the table entry at index `-error` when that index lies in the
   * table, otherwise "". The negation is taken in unbounded arithmetic; the one code whose
   * 32-bit negation overflows, -2^31, lies outside the table either way.
   */
  function OclErrorString(error: ClInt): (s: string)
    ensures s != "" <==> -12 <= error <= 0 || -63 <= error <= -30
    ensures -12 <= error <= 0 ==> s == GeneralErrors[-error]
    ensures -63 <= error <= -30 ==> s == InvalidErrors[-30 - error]
  {
    if 0 <= -(error as int) < |ErrorStrings| then ErrorStrings[-(error as int)] else ""
  }

  /** `s` has the form of an OpenCL constant name: CL_ followed by at least one more character. */
  predicate IsClName(s: string)
  {
    |s| > 3 && s[0] == 'C' && s[1] == 'L' && s[2] == '_'
  }

  lemma GeneralErrorsAreClNames()
    ensures forall k :: 0 <= k < |GeneralErrors| ==> IsClName(GeneralErrors[k])
  {
  }

  lemma InvalidErrorsAreClNames()
    ensures forall k :: 0 <= k < |InvalidErrors| ==> IsClName(InvalidErrors[k])
  {
  }

  /** Every name the lookup returns has the form of an OpenCL constant name. */
  lemma NamesAreClConstants(error: ClInt)
    ensures OclErrorString(error) != "" ==> IsClName(OclErrorString(error))
  {
    if -12 <= error <= 0 {
      GeneralErrorsAreClNames();
      assert OclErrorString(error) == GeneralErrors[-(error as int)];
    } else if -63 <= error <= -30 {
      InvalidErrorsAreClNames();
      assert OclErrorString(error) == InvalidErrors[-30 - error as int];
    }
  }

  /** The size of the table and a few of its landmarks. */
  lemma ErrorStringSamples()
    ensures |ErrorStrings| == 64
    ensures OclErrorString(0) == "CL_SUCCESS"
    ensures OclErrorString(-12) == "CL_MAP_FAILURE"
    ensures OclErrorString(-30) == "CL_INVALID_VALUE"
    ensures OclErrorString(-63) == "CL_INVALID_GLOBAL_WORK_SIZE"
    ensures forall c: ClInt :: -29 <= c <= -13 ==> OclErrorString(c) == ""
    ensures OclErrorString(1) == "" && OclErrorString(-64) == "" && OclErrorString(-0x8000_0000) == ""
  {
  }
}
