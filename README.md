# RayTracing renderer core in Dafny

A model of the CPU ray tracer's renderer and scene primitives (the C++ project
`RayTracing`), with proofs about it:

- `Geometry.dfy`: the vector arithmetic of glm that the code uses (vec2/vec3/vec4 over the reals, `+`, `-`, `vec * float`, `dot`, `normalize`).
- `Scenes.dfy`: `Material` with its defaults and `GetEmission`, the `Sphere` hittable with its analytic `Intersect`, and the `Scene` record.
- `Rendering.dfy`: the `Renderer` class and its state (settings, light direction, final image, pixel buffer, accumulation buffer, frame index). It includes the resize logic, the row-major pixel loop, the per-pixel sphere test against a fixed camera and sphere, and the 32-bit buffer-size computation.

Floating point is modelled as exact real arithmetic. `glm::sqrt` is a call into code Dafny cannot define on the reals. Every operation that needs it therefore takes the square root as a parameter `sqrt`. The properties assume only `IsSqrt(sqrt)`: it returns the non-negative root of every non-negative real. The image is reduced to its (width, height).

`Render` and `PerPixel` follow the bodies in `Renderer.cpp`: `Render()` takes no arguments and `PerPixel` takes a `vec2` coordinate. The header declares a newer `Render(scene, camera)` and `PerPixel(x, y)`, which have no bodies here.

## Model

| member | source | states |
|---|---|---|
| Geometry.Normalize | RayTracing/src/Renderer.cpp:48-49 | the normalised direction has unit length, and scaled back by the length of the input it gives the input again |
| Scenes.GetEmission | RayTracing/src/Scene.h:16 | emission is zero when the power is zero or the colour is black; its dot product with every vector k is the power times the colour's dot product with k |
| Scenes.EmissionDeterminedByContract | RayTracing/src/Scene.h:16 | any vector whose dot products are the power times the colour's is the emission, so GetEmission's contract determines colour * power |
| Scenes.EmissionLinearInPower | RayTracing/src/Scene.h:16 | emission is linear in the emission power |
| Scenes.DefaultMaterialIsWhiteDiffuse | RayTracing/src/Scene.h:10-16 | a default material has albedo (1,1,1), roughness 1, metallic 0 and zero emission |
| Scenes.Intersect | RayTracing/src/Scene.h:46-54 | a negative discriminant gives exactly -1 |
| Scenes.SurfaceQuadratic | RayTracing/src/Scene.h:33-48 | the point at distance t along the ray lies on the sphere if and only if t solves a*t*t + b*t + c = 0 with a, b, c as the code computes them (b = 2 * dot(origin - position, direction)) |
| Scenes.QuadraticRoots | RayTracing/src/Scene.h:57-61 | with a > 0 and the discriminant's root s, every solution is one of the two roots (-b - s)/2a and (-b + s)/2a |
| Scenes.NearerRootFirst | RayTracing/src/Scene.h:59-61 | the returned root t1 is never beyond the unused root t0 |
| Scenes.FarRoot | RayTracing/src/Scene.h:59 | the unused root t0 also lies on the sphere and is no nearer than the returned root |
| Scenes.IntersectIsNearestCrossing | RayTracing/src/Scene.h:46-63 | with a non-negative discriminant the result solves the code's quadratic, lies on the sphere, is at most the further root, and is no further than any other crossing of the surface |
| Scenes.IntersectMissIsGenuine | RayTracing/src/Scene.h:51-54 | a negative discriminant gives -1, and then the ray's line does not meet the sphere anywhere |
| Scenes.DiscriminantDecidesHit | RayTracing/src/Scene.h:51-54 | the line meets the sphere if and only if the discriminant is non-negative |
| Scenes.IntersectAimedAtCentre | RayTracing/src/Scene.h:46-63 | a unit direction aimed at the centre from distance D gives D - radius |
| Scenes.IntersectTranslationInvariant | RayTracing/src/Scene.h:33 | moving the ray origin and the sphere position by the same vector leaves the result unchanged |
| Rendering.PixelCoord | RayTracing/src/Renderer.cpp:12-14 | the coordinate of every pixel inside a non-empty image lies in [-1, 1) on both axes |
| Rendering.RayDirection | RayTracing/src/Renderer.cpp:48-49 | the primary ray direction has unit length |
| Rendering.PerPixel | RayTracing/src/Renderer.cpp:42-73 | the result is 0xffff00ff or 0xff000000 and nothing else; it is 0xffff00ff if and only if 15 * (x*x + y*y) <= 1 |
| Rendering.CameraDiscriminant | RayTracing/src/Renderer.cpp:60-68 | for a ray from (0, 0, 2) along d and radius 0.5, b*b - 4*a*c equals 16 * d.z^2 - 15 * dot(d, d) |
| Rendering.PixelDiscriminant | RayTracing/src/Renderer.cpp:47-68 | for the normalised ray through (x, y), the discriminant is 16 / L - 15 with L = x*x + y*y + 1 |
| Rendering.PixelDiscriminantClosedForm | RayTracing/src/Renderer.cpp:68-70 | the discriminant is non-negative exactly when 15 * (x*x + y*y) <= 1 |
| Rendering.PerPixelCentreHits | RayTracing/src/Renderer.cpp:47-72 | at coordinate (0, 0) the discriminant is 1 and the colour is 0xffff00ff |
| Rendering.PerPixelCornerMisses | RayTracing/src/Renderer.cpp:47-72 | at coordinate (-1, -1) the discriminant is negative and the colour is 0xff000000 |
| Rendering.CameraDiscriminantIsSphereTest | RayTracing/src/Renderer.cpp:60-68 | the per-pixel discriminant is the Sphere::Intersect discriminant of a sphere of radius 0.5 at the world origin, with rays starting at (0, 0, 2) |
| Rendering.RowMajorInBounds | RayTracing/src/Renderer.cpp:16 | every index x + y*W written for x < W and y < H is below W*H, the length OnResize allocates |
| Rendering.RowMajorInjective | RayTracing/src/Renderer.cpp:9-16 | distinct pixels (x, y) with x < W write distinct slots |
| Rendering.RowMajorCovers | RayTracing/src/Renderer.cpp:9-16 | every slot k < W*H is the slot of pixel (k % W, k / W) of the image |
| Rendering.FramePixel | RayTracing/src/Renderer.cpp:9-16 | in the frame a render produces, the slot of each pixel (x, y) holds PerPixel of that pixel's coordinate |
| Rendering.Settings.constructor | RayTracing/src/Renderer.h:14-16 | accumulation is on by default |
| Rendering.Renderer.constructor | RayTracing/src/Renderer.h:45-56 | a fresh renderer has frame index 1, accumulation on, and no final image, pixel buffer or accumulation buffer |
| Rendering.Renderer.GetFinalImage | RayTracing/src/Renderer.h:24 | the image is present exactly when the pixel buffer exists, and then the buffer has one slot per pixel |
| Rendering.Renderer.GetSettings | RayTracing/src/Renderer.h:28 | returns the renderer's own settings object |
| Rendering.WriteThroughSettings | RayTracing/src/Renderer.h:28 | writing through the reference GetSettings returns changes the settings and no field of the renderer |
| Rendering.Renderer.SetLightDir | RayTracing/src/Renderer.h:25 | stores the given direction and changes no other field |
| Rendering.Renderer.ResetFrameIndex | RayTracing/src/Renderer.h:27 | sets the frame index to 1 and changes no other field |
| Rendering.Renderer.OnResize | RayTracing/src/Renderer.cpp:24-40 | with an existing image of the same size, the image and the buffer stay as they are. Otherwise the image takes the new size (created if absent) and a fresh buffer of exactly width * height slots replaces the old one. The light direction, frame index and accumulation buffer are untouched |
| Rendering.Renderer.Render | RayTracing/src/Renderer.cpp:7-22 | leaves the buffer equal to the frame of PerPixel colours. The slots are written in order 0, 1, ..., W*H - 1, so each is written exactly once, and the image and buffer size do not change |
| Rendering.WrappedPixelCount | RayTracing/src/Renderer.cpp:37 | the 32-bit buffer length is never more than width * height, and equals it exactly when width * height is below 2^32 |
| Rendering.WrappedPixelCountTooSmall | RayTracing/src/Renderer.cpp:37 | for a 65536 x 65536 image the 32-bit product is 0, while the pixel loop writes slot 4294967295 |
| Rendering.WrappedRowMajor | RayTracing/src/Renderer.cpp:16 | the 32-bit slot index is never more than x + y * W, and equals it exactly when x + y * W is below 2^32 |
| Rendering.WrappedRowMajorCollides | RayTracing/src/Renderer.cpp:16 | in a 65536 x 65537 image the distinct pixels (0, 65536) and (0, 0) both go to 32-bit slot 0 |

## Left out

- The application layer (`WalnutApp.cpp`): the ImGui panels, the viewport, the timer and the entry point. It is user-interface code.
- The internals of `Walnut::Image` (`Resize`, `SetData`, the GPU upload, the descriptor set). It is a foreign library, so the image is only its size, and the `SetData` call at the end of `Render` is not modelled.
- `Sphere::DrawImGui`: user-interface widget code.
- IEEE floating point (rounding, NaN, infinities): the model uses exact reals. The unused `uint8_t` casts at the start of `PerPixel` have no effect on the result and are left out.
- `glm::sqrt` is not defined here. It is a parameter constrained by `IsSqrt`.
- Members that are declared but have no body: `Render(scene, camera)`, `PerPixel(x, y)`, `TraceRay`, `ClosestHit`, `Miss` and `HitPayload`.
- `m_ActiveScene` and `m_ActiveCamera`: they are only read by members without a body.
- The use of `m_AccumulationData` and of the frame index for averaging: that code is not present. The fields exist; the accumulation buffer is never allocated.
- `Camera`, `Ray.h` beyond a ray's origin and direction, and `Walnut::Random`: these files are not part of this model.
- `new[]` and `delete[]`: a reallocation is a freshly allocated array, with no explicit free.
- `m_lightDir`: the fresh renderer leaves it unspecified, as the C++ default constructor leaves it uninitialised.
- Scenes.Intersect: it requires a non-zero ray direction. A zero direction makes `a` zero, and the C++ then divides by zero in floating point, which the real-number model cannot express.
- Scenes.Intersect: a sphere behind the ray origin yields a negative distance, not the -1 sentinel. The model states this (IntersectAimedAtCentre with a negative distance) and does not treat it as a miss.
- Material indices: nothing relates a hittable's material index to the length of the material list, because the source does not enforce that.
- The default radius 0.5 of a default-constructed `Sphere`: no modelled operation constructs a sphere without giving its radius, and `Hittable`'s other fields have no defaults.
- Rendering.Renderer.Render: it computes the slot `x + y * W` as an exact number, not as the 32-bit expression of the C++, which wraps once the pixel count passes 2^32 (see Findings). Its "each slot exactly once" is the behaviour without that wrap.
- Rendering.Renderer.Render: it requires an existing image. The C++ dereferences a null image pointer when called before the first OnResize; the only caller resizes first.
- Rendering.Renderer.OnResize: it allocates the exact `width * height` slots, not the 32-bit product the C++ computes (see Findings).

## Findings

| source | as written | input that shows it | evidently intended | confidence | as-written member | corrected member |
|---|---|---|---|---|---|---|
| RayTracing/src/Renderer.cpp:37 | the buffer length `width * height` is a `uint32_t` product, which wraps modulo 2^32 | width = height = 65536: the buffer has 0 slots, but `Render` writes slot 65535 + 65535 * 65536 = 4294967295 | a buffer of one slot per pixel, width * height computed without wrap-around | not executed | Rendering.WrappedPixelCountTooSmall | Rendering.Renderer.OnResize |
| RayTracing/src/Renderer.cpp:16 | the slot `x + y * width` is `uint32_t` arithmetic, which wraps modulo 2^32 | width = 65536, height = 65537: pixels (0, 65536) and (0, 0) both write slot 0 | distinct pixels write distinct slots | not executed | Rendering.WrappedRowMajorCollides | Rendering.RowMajorInjective |
