/** Descriptor types, shared by the root signature, the draw path and the descriptor tables. */
module Descriptors {

  datatype DescriptorType =
    | Sampler
    | ConstantBuffer
    | ShaderResourceView
    | BufferShaderResourceView
    | AccelerationStructure
    | UnorderedAccessView
    | BufferUnorderedAccessView
    | OtherType
}
