/** Small shared vocabulary: optional values and Vulkan object handles. */
module Common {

  /** A value that may be absent, e.g. a C++ member that has not been assigned yet. */
  datatype Option<+T> = None | Some(value: T)

  /** A Vulkan object handle; `Null` plays the part of VK_NULL_HANDLE. */
  type Handle = nat

  const Null: Handle := 0
}
