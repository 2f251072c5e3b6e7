# ray2 materials and lights, modelled in Dafny

This project models the shading core of the `ray2` ray tracer (assignment a7). It covers:

- the reflectance models (BSDFs) a path tracer samples and evaluates: Lambertian, microfacet with a Beckmann or GGX distribution, glass, and glazed;
- the record a BSDF sample is written into;
- the Fresnel reflectance that several BSDFs share;
- the point light and the rectangle light;
- the cube-map environment light: its PFM header parser, its cumulative probability table and binary search, the cube-face geometry, and its `eval`, `sample` and `pdf`.

Java objects whose fields are updated in place are Dafny classes. This covers the BSDFs, the cube map, the lights, the sampling records, and `Vector3d`/`Colord` wherever Java writes through a caller's vector or colour. Computations on values are functions over the `Vec3` and `Color` datatypes. Each value-changing method is specified by such a function. The properties the code promises are then proved about those functions:

- sample agrees with pdf and eval;
- reciprocity and non-negativity;
- Snell's law and energy bounds for glass;
- round trips between directions, face coordinates and pixel indices;
- round trips of the header parser.

Doubles are unbounded `real`s. The square root, exp, log, sin and cos are fields of a `VecMath.Lib` value passed in explicitly. The model assumes only the following laws about them, each stated as a predicate that a member requires where it needs it:

- `Lawful`: `sqrt` is non-negative and squares back;
- `TrigLawful`: sin² + cos² = 1;
- `ExpLawful`: exp is positive;
- `LogLawful`: log is at most 0 on (0, 1].

Java's `int` wrap-around is written out where it can occur: `JavaNum.Wrap32`, and `JavaNum.Shl1` for `1 << p`. Java's `Math.random()` becomes an explicit parameter:

- `xi` in `GlazedBsdf.GlazedBSDF.Sample`;
- `a` and `b` in `RectangleLight.RectangleLight.Sample`.

The PFM header parser keeps two things from the code:

- It reads from a byte stream (`PfmHeader.DataInput`).
- It uses −1 as "no header" while `imageSize` is a wrapped `int`. `PfmHeader.MinusOneIsAmbiguous` shows a legal header, 5 × 286331153 pixels, whose size wraps to −1 exactly. That is indistinguishable from the error code `readPFM` tests for.

## Model

| member | source | states |
|---|---|---|
| Bsdf.Fresnel | a7/src/ray2/material/BSDF.java:99-115 | the reflectance is 0 when the outgoing direction is below the surface, 1 under total internal reflection, and always in [0, 1] |
| Bsdf.Amplitude | a7/src/ray2/material/BSDF.java:110-111 | each polarisation's amplitude ratio has magnitude at most 1, so the average of their squares is a reflectance |
| Bsdf.TransmittedCosinePositive | a7/src/ray2/material/BSDF.java:104-111 | when fresnel goes past the total-reflection test, the denominators it divides by are positive |
| Bsdf.FresnelNormalIncidence | a7/src/ray2/material/BSDF.java:99-115 | at normal incidence the reflectance is ((n−1)/(n+1))² |
| Bsdf.FresnelNormalIncidenceValue | a7/src/ray2/material/BSDF.java:99-115 | when q·(n+1) = n−1, the normal-incidence reflectance is q², the form the tests compare against |
| Bsdf.FresnelGrazing | a7/src/ray2/material/BSDF.java:99-115 | at grazing incidence (cosine 0) with n > 1 the reflectance is 1 |
| Bsdf.FresnelCriticalAngle | a7/src/ray2/material/BSDF.java:104-114 | when the transmitted cosine is exactly 0 the formula also gives 1, so the reflectance is continuous at the critical angle |
| Bsdf.FresnelFixtureGrazing | a7/src/ray2/material/BSDFTests.java:224-231 | the test's normal (1,1,1) and outgoing (−1,1,0) at index 2 give reflectance 1, as the test expects |
| Bsdf.FresnelFixtureIndexTwo | a7/src/ray2/material/BSDFTests.java:233-240 | any pair at cosine 1 with index 2 gives 1/9, the test's expected 0.111111111 |
| Bsdf.FresnelFixtureIndexFive | a7/src/ray2/material/BSDFTests.java:242-249 | any pair at cosine 1 with index 5 gives 4/9, the test's expected 0.44444444 |
| Bsdf.FixtureCosines | a7/src/ray2/material/BSDFTests.java:224-249 | the test's (normal, outgoing) pairs have dot products 0 and 1, which fresnel uses as cos₁ without normalising |
| Lambertian.LambertianBSDF.constructor | a7/src/ray2/material/LambertianBSDF.java:11-14 | a new Lambertian BSDF is white |
| Lambertian.LambertianBSDF.WithColor | a7/src/ray2/material/LambertianBSDF.java:16-18 | the reflectance is the given colour |
| Lambertian.LambertianBSDF.Value | a7/src/ray2/material/LambertianBSDF.java:25-30 | black unless both directions are on the normal's side |
| Lambertian.LambertianBSDF.Reciprocal | a7/src/ray2/material/LambertianBSDF.java:25-30 | swapping the two directions leaves the value unchanged |
| Lambertian.LambertianBSDF.ValueNonNeg | a7/src/ray2/material/LambertianBSDF.java:25-30 | a non-negative reflectance gives a non-negative value |
| Lambertian.LambertianBSDF.Eval | a7/src/ray2/material/LambertianBSDF.java:25-30 | the colour written is the BRDF value for the two directions |
| Lambertian.LambertianBSDF.Pdf | a7/src/ray2/material/LambertianBSDF.java:78-83 | the density is never negative, and π times it is the cosine of dir2 with the normal clamped at 0 |
| Lambertian.LambertianBSDF.SampleDirection | a7/src/ray2/material/LambertianBSDF.java:61-69 | the sampled direction lies on the normal's side |
| Lambertian.LambertianBSDF.SampleDirectionUnit | a7/src/ray2/material/LambertianBSDF.java:61-69 | for a unit normal and a seed in the unit square the sampled direction is a unit vector |
| Lambertian.LambertianBSDF.Sample | a7/src/ray2/material/LambertianBSDF.java:61-72 | dir2 is the cosine-weighted sampled direction, the value is reflectance/π, and π times the density is that direction's cosine with the normal; for seed.x in [0, 1] the density is pdf's, and when dir1 is also above the surface the value is eval's |
| Lambertian.LambertianBSDF.DiffuseReflectance | a7/src/ray2/material/LambertianBSDF.java:89-91 | the diffuse reflectance is the stored colour |
| Hemisphere.CosineHemisphere | a7/src/ray2/material/LambertianBSDF.java:32-37 | the height is the square root of 1 − seed.x, so never negative (GlazedBSDF.java:90-95 is the same code) |
| Hemisphere.CosineHemisphereUnit | a7/src/ray2/material/LambertianBSDF.java:32-37 | a seed in the unit square gives a unit vector |
| Hemisphere.UniformHemisphere | a7/src/ray2/material/LambertianBSDF.java:39-44 | the height is seed.x |
| Hemisphere.UniformHemisphereUnit | a7/src/ray2/material/LambertianBSDF.java:39-44 | a seed with x in [−1, 1] gives a unit vector |
| Hemisphere.BasisSeed | a7/src/ray2/material/LambertianBSDF.java:47-52 | the helper axis is the one along w's smallest component |
| Hemisphere.SeedNotParallel | a7/src/ray2/material/LambertianBSDF.java:47-53 | that axis is never parallel to a non-zero w |
| Hemisphere.BasisFromW | a7/src/ray2/material/LambertianBSDF.java:46-55 | both basis vectors are perpendicular to w (the same code is at MicrofacetDistribution.java:82-91 and GlazedBSDF.java:99-108) |
| Hemisphere.BasisFromWOrthonormal | a7/src/ray2/material/LambertianBSDF.java:46-55 | for a unit w, (u, v, w) is an orthonormal frame |
| Hemisphere.ToWorldCosine | a7/src/ray2/material/LambertianBSDF.java:67-69 | the world direction's cosine with the unit normal is the local height |
| Hemisphere.ToWorldUnit | a7/src/ray2/material/LambertianBSDF.java:67-69 | a unit local direction in an orthonormal frame maps to a unit world direction |
| Hemisphere.SphericalDirection | a7/src/ray2/material/MicrofacetDistribution.java:69-74 | the z component is the cosine given |
| Hemisphere.SphericalDirectionUnit | a7/src/ray2/material/MicrofacetDistribution.java:69-74 | with sin² + cos² = 1 for theta, the direction is a unit vector |
| Hemisphere.HalfAngle | a7/src/ray2/material/Beckmann.java:76-80 | the cosine and sine computed from tan² satisfy cos² + sin² = 1 with cos > 0 |
| Hemisphere.NormalisedCosine | a7/src/ray2/material/Beckmann.java:44-47 | after G normalises v and n, their cosine is non-zero, at most 1 in magnitude, and has a real sine |
| BsdfRecord.BSDFSamplingRecord.constructor | a7/src/ray2/material/BSDFSamplingRecord.java:24-29 | all three vectors are zero and the record is not discrete |
| BsdfRecord.BSDFSamplingRecord.FromDirection | a7/src/ray2/material/BSDFSamplingRecord.java:31-34 | dir1 and normal are fresh copies of the arguments, and dir2 is zero |
| BsdfRecord.BSDFSamplingRecord.WithFlag | a7/src/ray2/material/BSDFSamplingRecord.java:36-40 | the same, with the given discreteness flag |
| BsdfRecord.FlipDoesNotReachCaller | a7/src/ray2/material/BSDFSamplingRecord.java:31-34 | because the record copies its arguments, negating the record's normal (as GlassBSDF.java:62 does) leaves the caller's normal unchanged |
| MicrofacetDistribution.SetAlpha | a7/src/ray2/material/MicrofacetDistribution.java:155 | alpha changes, the variant and nt do not |
| MicrofacetDistribution.SetNt | a7/src/ray2/material/MicrofacetDistribution.java:160 | nt changes, the variant and alpha do not |
| MicrofacetDistribution.ChiPlus | a7/src/ray2/material/MicrofacetDistribution.java:18-21 | 1 exactly for positive arguments, otherwise 0 |
| MicrofacetDistribution.Sign | a7/src/ray2/material/MicrofacetDistribution.java:76-80 | −1, 0 or 1 with the sign of the argument |
| MicrofacetDistribution.SignMagnitude | a7/src/ray2/material/MicrofacetDistribution.java:76-80 | the sign times the magnitude gives the number back |
| MicrofacetDistribution.D | a7/src/ray2/material/MicrofacetDistribution.java:16 | each variant's D is 0 for half vectors below the surface, never negative, and positive above the surface when alpha is positive |
| MicrofacetDistribution.G | a7/src/ray2/material/MicrofacetDistribution.java:24 | each variant's masking factor is never negative, and 0 when v·m and v·n do not share a sign |
| MicrofacetDistribution.GInPlace | a7/src/ray2/material/MicrofacetDistribution.java:56-57 | G on the caller's vectors is the value function; it leaves v and n normalised when the sign test v·m / v·n > 0 passes, and unchanged otherwise |
| MicrofacetDistribution.GNormalInvariant | a7/src/ray2/material/MicrofacetDistribution.java:56-57 | the second G call in eval, which sees the normal the first one normalised, gets the value it would get on the original normal |
| MicrofacetDistribution.SampleHelper | a7/src/ray2/material/MicrofacetDistribution.java:75 | each variant's sampled local half vector is a unit vector in the upper hemisphere |
| MicrofacetDistribution.Fresnel | a7/src/ray2/material/MicrofacetDistribution.java:27-40 | 1 when g² ≤ 0, otherwise the Cook–Torrance form, never negative where it is defined |
| MicrofacetDistribution.FresnelDefinedForUnit | a7/src/ray2/material/MicrofacetDistribution.java:27-40 | whenever (i·h)² ≤ 1, as for unit vectors, fresnel never takes the square root of a negative number or divides by zero |
| MicrofacetDistribution.FresnelIndexMatched | a7/src/ray2/material/MicrofacetDistribution.java:27-40 | with matched indices (nt = 1) the reflectance is 0 |
| MicrofacetDistribution.FresnelNormalIncidence | a7/src/ray2/material/MicrofacetDistribution.java:27-40 | at c = 1 the reflectance is ((nt−1)/(nt+1))² |
| MicrofacetDistribution.FresnelOfCosine | a7/src/ray2/material/MicrofacetDistribution.java:27-31 | two directions with the same cosine to h have the same fresnel term, and it is defined for the second when it is for the first |
| MicrofacetDistribution.EvalValue | a7/src/ray2/material/MicrofacetDistribution.java:43-65 | 0 unless both directions are strictly above the surface |
| MicrofacetDistribution.EvalNonneg | a7/src/ray2/material/MicrofacetDistribution.java:43-65 | the microfacet BRDF is never negative |
| MicrofacetDistribution.EvalReciprocal | a7/src/ray2/material/MicrofacetDistribution.java:43-65 | swapping the two directions leaves the BRDF unchanged |
| MicrofacetDistribution.EqualCosines | a7/src/ray2/material/MicrofacetDistribution.java:51-52 | the two directions make the same cosine with their half vector |
| MicrofacetDistribution.Pdf | a7/src/ray2/material/MicrofacetDistribution.java:122-149 | 0 when either direction is off the hemisphere, and 0 when dir1 is perpendicular to the half vector |
| MicrofacetDistribution.PdfNonneg | a7/src/ray2/material/MicrofacetDistribution.java:122-149 | the density is never negative |
| MicrofacetDistribution.PdfOfHalfVector | a7/src/ray2/material/MicrofacetDistribution.java:132-144 | above the surface the density is D(h)·cos θh / (4·i·h), the half-vector density times the reflection Jacobian |
| MicrofacetDistribution.EvalEffect | a7/src/ray2/material/MicrofacetDistribution.java:46-58 | eval's in-place normalising keeps on which side of the surface each vector lies |
| MicrofacetDistribution.EvalEffectKeepsNormalised | a7/src/ray2/material/MicrofacetDistribution.java:56-57 | eval's normalisation of dir2 leaves an already normalised vector unchanged |
| MicrofacetDistribution.Eval | a7/src/ray2/material/MicrofacetDistribution.java:43-65 | the value returned is the microfacet BRDF of the original vectors, and the vectors are left as the in-place normalising leaves them |
| MicrofacetDistribution.SampledHalfVector | a7/src/ray2/material/MicrofacetDistribution.java:96-108 | the world half vector is on the normal's side (positive cosine with any non-zero normal) |
| MicrofacetDistribution.ReflectUnit | a7/src/ray2/material/MicrofacetDistribution.java:112-113 | reflecting a unit vector about a unit half vector gives a unit vector |
| MicrofacetDistribution.ReflectionHalfVector | a7/src/ray2/material/MicrofacetDistribution.java:110-113 | the half vector of dir1 and its reflection about h is h again, when i·h > 0 |
| MicrofacetDistribution.EvalDefinedForUnit | a7/src/ray2/material/MicrofacetDistribution.java:43-65 | eval never divides by zero on unit vectors |
| MicrofacetDistribution.SampleDefinedForUnit | a7/src/ray2/material/MicrofacetDistribution.java:94-116 | sample never divides by zero on a unit dir1 and normal |
| MicrofacetDistribution.MirrorSample | a7/src/ray2/material/MicrofacetDistribution.java:96-113 | the sampled dir2 is dir1 reflected about the sampled half vector |
| MicrofacetDistribution.Sample | a7/src/ray2/material/MicrofacetDistribution.java:94-119 | dir2 is the mirrored direction, the density returned is pdf of it, and the value is eval of it |
| MicrofacetDistribution.SampleAt | a7/src/ray2/material/MicrofacetDistribution.java:115-118 | the density and value sample reports for a fixed dir2 are pdf's and eval's, with eval's in-place effect |
| MicrofacetDistribution.SampleDensityAtDrawnHalfVector | a7/src/ray2/material/MicrofacetDistribution.java:94-119 | the density sample returns is the density of the half vector it drew times the reflection Jacobian 1/(4·i·h) |
| Beckmann.D | a7/src/ray2/material/Beckmann.java:20-35 | 0 below the surface, positive above it for positive alpha |
| Beckmann.HelperDenominator | a7/src/ray2/material/Beckmann.java:58-66 | the rational approximation never divides by zero for a ≥ 0 |
| Beckmann.GHelper | a7/src/ray2/material/Beckmann.java:55-68 | 1 from a = 1.6 on, never negative |
| Beckmann.HelperOvershoots | a7/src/ray2/material/Beckmann.java:58-66 | the approximation exceeds 1 just below 1.6 (at 1.59), so Beckmann's G is not bounded by 1 |
| Beckmann.G | a7/src/ray2/material/Beckmann.java:37-53 | 0 when v and m disagree about the side, otherwise the helper's value, never negative |
| Beckmann.GInPlace | a7/src/ray2/material/Beckmann.java:37-53 | G on the caller's vectors is the value function; it normalises v and n in place when the sign test v·m / v·n > 0 passes, and leaves them unchanged otherwise |
| Beckmann.GNormalInvariant | a7/src/ray2/material/Beckmann.java:46 | normalising the normal first does not change G |
| Beckmann.SampleTanSq | a7/src/ray2/material/Beckmann.java:75 | tan²θ = −α² log(1−u) is non-negative |
| Beckmann.SampleHelper | a7/src/ray2/material/Beckmann.java:71-82 | the sampled local half vector is a unit vector above the surface |
| Beckmann.SampledHalfVectorHasDensity | a7/src/ray2/material/Beckmann.java:71-82 | D has positive density at the half vector sample draws |
| Ggx.D | a7/src/ray2/material/GGX.java:19-34 | 0 below the surface, never negative, and positive above it for non-zero alpha |
| Ggx.DDefinedForUnit | a7/src/ray2/material/GGX.java:19-34 | D never divides by zero for a unit normal and half vector |
| Ggx.G | a7/src/ray2/material/GGX.java:37-52 | 0 when v and m disagree about the side, otherwise in (0, 1] |
| Ggx.Smith | a7/src/ray2/material/GGX.java:49 | the Smith term 2/(1+√(1+α²tan²)) lies in (0, 1] |
| Ggx.GInPlace | a7/src/ray2/material/GGX.java:37-52 | G on the caller's vectors is the value function; it normalises v and n in place when the sign test v·m / v·n > 0 passes, and leaves them unchanged otherwise |
| Ggx.GNormalInvariant | a7/src/ray2/material/GGX.java:44 | normalising the normal first does not change G |
| Ggx.SampleTanSq | a7/src/ray2/material/GGX.java:58 | tan²θ = α²u/(1−u) is non-negative |
| Ggx.SampleHelper | a7/src/ray2/material/GGX.java:55-65 | the sampled local half vector is a unit vector above the surface |
| Ggx.SampledHalfVectorHasDensity | a7/src/ray2/material/GGX.java:55-65 | D has positive density at the half vector sample draws |
| MicrofacetBsdf.MicrofacetBSDF.constructor | a7/src/ray2/material/MicrofacetBSDF.java:46-50 | index 1.5, roughness 0.5, and a Beckmann distribution with those parameters |
| MicrofacetBsdf.MicrofacetBSDF.WithParameters | a7/src/ray2/material/MicrofacetBSDF.java:51-61 | the distribution is built from the arguments' roughness and index: Beckmann for code 0, GGX for code 1, none otherwise; the index field is the argument, roughness keeps 1.0 and disttype 0, and the colours are stored |
| MicrofacetBsdf.MicrofacetBSDF.SetDisttype | a7/src/ray2/material/MicrofacetBSDF.java:36-43 | code 0 gives Beckmann and 1 gives GGX from the current roughness and index; any other code keeps the old distribution |
| MicrofacetBsdf.EvalColor | a7/src/ray2/material/MicrofacetBSDF.java:75-87 | black unless both directions are strictly above the surface |
| MicrofacetBsdf.EvalColorNonneg | a7/src/ray2/material/MicrofacetBSDF.java:75-87 | non-negative colours give a non-negative result |
| MicrofacetBsdf.MicrofacetBSDF.Eval | a7/src/ray2/material/MicrofacetBSDF.java:73-88 | the colour is the previous colour plus diffuse/π plus specular times the microfacet BRDF, black off the hemisphere; the vectors are left as the distribution's eval leaves them |
| MicrofacetBsdf.MicrofacetBSDF.Pdf | a7/src/ray2/material/MicrofacetBSDF.java:123-129 | the density is the distribution's pdf; the hemisphere test adds nothing, since that pdf is already 0 below the surface |
| MicrofacetBsdf.MicrofacetBSDF.Sample | a7/src/ray2/material/MicrofacetBSDF.java:95-116 | dir2 is the distribution's mirrored sample, the density returned is the distribution's pdf of it, the colour is eval's colour for it, and dir1 and normal end as eval's normalising leaves them |
| MicrofacetBsdf.SampleAtDirection | a7/src/ray2/material/MicrofacetBSDF.java:101-115 | the same for a fixed dir2 |
| MicrofacetBsdf.Combine | a7/src/ray2/material/MicrofacetBSDF.java:103-115 | the side test on the normalised vectors gives the same answer as on the original ones, so density and colour are zeroed exactly off the hemisphere |
| MicrofacetBsdf.GrayProduct | a7/src/ray2/material/MicrofacetBSDF.java:109 | mcolor.mul(bsdf) with a grey bsdf scales the specular colour |
| MicrofacetBsdf.MicrofacetBSDF.DiffuseReflectance | a7/src/ray2/material/MicrofacetBSDF.java:132-134 | the diffuse reflectance is the stored colour |
| GlassBsdf.Indices | a7/src/ray2/material/GlassBSDF.java:57-66 | (ior, 1) from inside (a dot product of 0 counts), (1, ior) from outside |
| GlassBsdf.FacingNormal | a7/src/ray2/material/GlassBSDF.java:54-62 | the normal used is ±n and faces the incoming direction |
| GlassBsdf.TransmittedSqIsSnell | a7/src/ray2/material/GlassBSDF.java:71-75 | sample's transmitted cos² is fresnel's for the relative index n2/n1 |
| GlassBsdf.Reflectance | a7/src/ray2/material/GlassBSDF.java:71-77 | the reflectance chosen is in [0, 1], and 1 under total internal reflection |
| GlassBsdf.SampleOutcome | a7/src/ray2/material/GlassBSDF.java:43-102 | the normal left in the record faces dir1, and the probability is R for the mirror, 1 − R for the refraction, 0 when neither lobe applies |
| GlassBsdf.TotalInternalReflection | a7/src/ray2/material/GlassBSDF.java:71-84 | under total internal reflection every seed up to 1 mirrors, with probability 1 |
| GlassBsdf.MirrorReflection | a7/src/ray2/material/GlassBSDF.java:81 | the mirrored direction is a unit vector at the incoming angle, so normalising does not change it |
| GlassBsdf.RefractionSnell | a7/src/ray2/material/GlassBSDF.java:89-93 | the refracted direction is a unit vector below the surface at cosine −cos₂, and n1·sin₁ = n2·sin₂ (Snell's law, squared) |
| GlassBsdf.ReflectedOutcome | a7/src/ray2/material/GlassBSDF.java:79-84 | from a zero dir2, the reflected sample is the mirror direction with value R/cos₁ |
| GlassBsdf.RefractedOutcome | a7/src/ray2/material/GlassBSDF.java:85-97 | the refracted sample obeys Snell's law and has value (1 − R)/cos₂ and probability 1 − R |
| GlassBsdf.SampleLobe | a7/src/ray2/material/GlassBSDF.java:79-101 | the lobe picked by seed.x against R writes the outcome's direction, value and probability |
| GlassBsdf.MirrorBranch | a7/src/ray2/material/GlassBSDF.java:79-84 | for seed.x ≤ R the outcome is the mirror lobe, added to the previous dir2 as the code does |
| GlassBsdf.RefractBranch | a7/src/ray2/material/GlassBSDF.java:85-97 | for seed.x > R without total reflection the outcome is the refraction lobe |
| GlassBsdf.TotalBranch | a7/src/ray2/material/GlassBSDF.java:85-98 | for seed.x > R under total reflection nothing is written and the probability is 0 |
| GlassBsdf.GlassBSDF.constructor | a7/src/ray2/material/GlassBSDF.java:15-23 | the index defaults to 1.5 |
| GlassBsdf.GlassBSDF.WithIndex | a7/src/ray2/material/GlassBSDF.java:25-27 | the index is the one given |
| GlassBsdf.GlassBSDF.Eval | a7/src/ray2/material/GlassBSDF.java:34-36 | a specular BSDF has no finite value: black |
| GlassBsdf.GlassBSDF.Sample | a7/src/ray2/material/GlassBSDF.java:43-102 | the record's normal, dir2, the grey value and the probability are SampleOutcome's, the record becomes discrete, and dir1 is unchanged |
| GlassBsdf.GlassBSDF.Pdf | a7/src/ray2/material/GlassBSDF.java:109-111 | 0 for every direction pair |
| GlassBsdf.GlassBSDF.DiffuseReflectance | a7/src/ray2/material/GlassBSDF.java:114-116 | black |
| GlazedBsdf.GlazedBSDF.constructor | a7/src/ray2/material/GlazedBSDF.java:15-33 | index 1.5, no substrate yet |
| GlazedBsdf.GlazedBSDF.WithIndex | a7/src/ray2/material/GlazedBSDF.java:35-37 | the given index, no substrate yet |
| GlazedBsdf.GlazedBSDF.SetSubstrate | a7/src/ray2/material/GlazedBSDF.java:22-24 | the substrate is set and the index kept |
| GlazedBsdf.GlazedBSDF.Eval | a7/src/ray2/material/GlazedBSDF.java:86-88 | the substrate's eval, case by case: Lambertian value, microfacet colour with its in-place effect, glass black |
| GlazedBsdf.MirrorTwice | a7/src/ray2/material/GlazedBSDF.java:130-153 | mirroring from a zero dir2 and then again from the mirrored dir2 gives the same unit mirror direction |
| GlazedBsdf.SpecularSample | a7/src/ray2/material/GlazedBSDF.java:128-157 | when xi ≤ R the final dir2 is the mirror direction |
| GlazedBsdf.DiffuseSampleAbove | a7/src/ray2/material/GlazedBSDF.java:134-157 | when xi > R the final dir2 is still on the normal's side |
| GlazedBsdf.GlazedBSDF.Sample | a7/src/ray2/material/GlazedBSDF.java:118-160 | whatever xi picks, the trailing block mirrors once more and dir2 is the resulting direction; the value is R/cos₁, the probability 1, and the record discrete |
| GlazedBsdf.GlazedBSDF.Pdf | a7/src/ray2/material/GlazedBSDF.java:164-166 | 0 for every direction pair |
| GlazedBsdf.GlazedBSDF.DiffuseReflectance | a7/src/ray2/material/GlazedBSDF.java:169-171 | the substrate's diffuse reflectance |
| PointLight.PointLight.constructor | a7/src/ray2/light/PointLight.java:19-64 | at the origin with unit (white) intensity |
| PointLight.PointLight.SetPosition | a7/src/ray2/light/PointLight.java:20 | the position changes, the intensity does not |
| PointLight.PointLight.Eval | a7/src/ray2/light/PointLight.java:31-33 | the radiance is the intensity in every direction |
| PointLight.PointLight.Sample | a7/src/ray2/light/PointLight.java:48-53 | the direction leads from the shading point to the light, the distance is its length, the attenuation is the inverse squared distance, and the probability is 1 |
| PointLight.PointLight.Pdf | a7/src/ray2/light/PointLight.java:56-59 | 1 for every ray |
| PointLight.InverseSquare | a7/src/ray2/light/PointLight.java:50-51 | attenuation times distance² is 1 |
| RectangleLight.RectangleLight.constructor | a7/src/ray2/light/RectangleLight.java:25-51 | a unit square at the origin facing −z with up +y and white radiance; the basis is not yet computed |
| RectangleLight.RectangleLight.Init | a7/src/ray2/light/RectangleLight.java:57-63 | the basis is computed from normalDir and upDir as init does, and no parameter changes |
| RectangleLight.RectangleLight.FrameOrthonormal | a7/src/ray2/light/RectangleLight.java:44-63 | after init, (u, v, w) is orthonormal, v = w × u, and w points against normalDir |
| RectangleLight.InitFrame | a7/src/ray2/light/RectangleLight.java:61-63 | the three normalised cross products form an orthonormal frame |
| RectangleLight.RectangleLight.DefaultFrame | a7/src/ray2/light/RectangleLight.java:29-63 | with the default orientation the basis is the standard one |
| RectangleLight.RectangleLight.Eval | a7/src/ray2/light/RectangleLight.java:96-101 | the radiance is the intensity for a ray against the normal, black for any other ray |
| RectangleLight.RectangleLight.LightPointOnRectangle | a7/src/ray2/light/RectangleLight.java:118-120 | the sampled point lies in the light's plane, at offsets width·(a − ½) and height·(b − ½), so inside the rectangle for a and b in [0, 1] |
| RectangleLight.RectangleLight.Attenuation | a7/src/ray2/light/RectangleLight.java:124 | never negative |
| RectangleLight.RectangleLight.Sample | a7/src/ray2/light/RectangleLight.java:117-126 | the direction is the normalised vector to the sampled point, the distance its length, the attenuation the clamped cosine over distance², and the probability is pdf's |
| RectangleLight.RectangleLight.Pdf | a7/src/ray2/light/RectangleLight.java:129-131 | the density times the area is 1 |
| RectangleLight.RectangleLight.OneSided | a7/src/ray2/light/RectangleLight.java:103-124 | the attenuation is positive exactly when the shading point is in front of the light, which is exactly when eval would see the light from there |
| RectangleLight.RectangleLight.InverseSquare | a7/src/ray2/light/RectangleLight.java:122-124 | attenuation times distance² is the clamped cosine at the light |
| CubemapLight.Cubemap.constructor | a7/src/ray2/light/Cubemap.java:17-37 | scale factor 1 and no image |
| CubemapLight.Cubemap.SetImage | a7/src/ray2/light/Cubemap.java:39-60 | the layout and data are stored, cumProb is the normalised running sum of the pixel weights, mapBits is the least m with 2^m ≥ width·height, and the map is ready to sample |
| CubemapLight.Cubemap.ReadySearchable | a7/src/ray2/light/Cubemap.java:49-59 | a loaded map's table starts at 0, ends at 1, never decreases, and steps only at pixels on a face |
| CubemapLight.Cubemap.SetScaleFactor | a7/src/ray2/light/Cubemap.java:62-64 | the scale factor changes and nothing else |
| CubemapLight.Cubemap.Eval | a7/src/ray2/light/Cubemap.java:71-79 | the radiance is the colour of the pixel the direction points at, times the scale factor |
| CubemapLight.Cubemap.PixelOf | a7/src/ray2/light/Cubemap.java:74-75 | dirToFace followed by faceToIndex always lands on a pixel of the image |
| CubemapLight.Cubemap.Pdf | a7/src/ray2/light/Cubemap.java:124-130 | the density is never negative, and 0 exactly when the pixel the direction points at has probability 0 |
| CubemapLight.Cubemap.Sample | a7/src/ray2/light/Cubemap.java:89-118 | with the corrected search (see Findings), the pixel picked lies on a face and brackets seed.x; the direction, the radiance and the returned density are as SampleOutcome says: the density is pdf's density for that direction, and eval finds the same pixel's radiance there |
| CubemapLight.SampleInPixel | a7/src/ray2/light/Cubemap.java:99-117 | the part of sample after the search, for a bracketing pixel |
| CubemapLight.Search | a7/src/ray2/light/Cubemap.java:92-97 | the binary search, with a bounds test added, finds the last pixel whose cumulative probability is below seed.x |
| CubemapLight.SearchStep | a7/src/ray2/light/Cubemap.java:95-97 | one round of the search keeps its bracket |
| CubemapLight.SearchAsWrittenBrackets | a7/src/ray2/light/Cubemap.java:95-97 | where every block stays in the table, the search as written ends at a bracketing pixel |
| CubemapLight.SearchAsWrittenFinds | a7/src/ray2/light/Cubemap.java:95-97 | where every block stays in the table, the search as written agrees with the corrected one |
| CubemapLight.SearchRunsPastTable | a7/src/ray2/light/Cubemap.java:95-97 | a 9 × 12 map with weight on face 2's bottom row makes the search as written read entry 112 of a 109-entry table (Findings) |
| CubemapLight.Accumulate | a7/src/ray2/light/Cubemap.java:50-54 | the table holds 0 and then the running sums of the weights |
| CubemapLight.DivideByLast | a7/src/ray2/light/Cubemap.java:56-57 | every entry after the first is divided by the last, the last one included, so it is divided by the original last |
| CubemapLight.DividedSums | a7/src/ray2/light/Cubemap.java:53-57 | dividing the running sums by the total gives the normalised table |
| CubemapLight.CountBits | a7/src/ray2/light/Cubemap.java:59 | the loop ends with the least m such that 2^m is at least the pixel count |
| CubemapTable.Radiance | a7/src/ray2/light/Cubemap.java:77 | non-negative data gives a non-negative colour |
| CubemapTable.PixelDensity | a7/src/ray2/light/Cubemap.java:117 | blockSz²/4 is positive |
| CubemapTable.SolidAngleFactor | a7/src/ray2/light/Cubemap.java:117 | (1 + u² + v²)^1.5 is positive |
| CubemapTable.PixelWeight | a7/src/ray2/light/Cubemap.java:220-233 | a pixel in an unused cell weighs 0, and weights are never negative |
| CubemapTable.WeightsNonNeg | a7/src/ray2/light/Cubemap.java:220-233 | every pixel's weight is non-negative |
| CubemapTable.NormalisedShape | a7/src/ray2/light/Cubemap.java:50-57 | normalised running sums start at 0, end at 1 and never decrease |
| CubemapTable.NormalisedStep | a7/src/ray2/light/Cubemap.java:53-57 | each step of the table is that pixel's weight over the total |
| CubemapTable.TableShape | a7/src/ray2/light/Cubemap.java:50-57 | the same for the image's table |
| CubemapTable.DensitySign | a7/src/ray2/light/Cubemap.java:129 | a density is zero exactly for a pixel of probability zero |
| CubemapTable.LastBelow | a7/src/ray2/light/Cubemap.java:95-97 | the last index r ≤ j whose entry is below x, or 0 when there is none: every later entry up to j is at least x |
| CubemapTable.BracketIsLastBelow | a7/src/ray2/light/Cubemap.java:95-97 | any bracketing pixel is that pixel |
| CubemapTable.PickBrackets | a7/src/ray2/light/Cubemap.java:95-99 | the pixel picked brackets the seed, so its probability is positive |
| CubemapTable.PickOnFace | a7/src/ray2/light/Cubemap.java:95-104 | the pixel picked has positive weight and lies on a face |
| CubemapTable.StepOnFace | a7/src/ray2/light/Cubemap.java:104 | a step of the table happens only at a pixel on a face |
| CubemapTable.SeedX | a7/src/ray2/light/Cubemap.java:100 | the seed rescaled into the picked pixel lies in (0, 1], and equals 1 only at the pixel's upper end |
| CubemapTable.SampleMatchesPdf | a7/src/ray2/light/Cubemap.java:99-130 | for a jitter strictly inside the pixel, the sampled direction is non-zero, maps back to the same pixel, and has pdf equal to the density sample returns and the radiance of that pixel |
| CubemapTable.PointOfPixel | a7/src/ray2/light/Cubemap.java:124-130 | pdf and eval of a direction depend only on the pixel and face point it maps to |
| CubemapTable.MapBitsBound | a7/src/ray2/light/Cubemap.java:59 | when 3·width·height is in the int range (`Fits`), mapBits is at most 30, so `1 << p` never wraps |
| CubemapTable.MapBitsUnique | a7/src/ray2/light/Cubemap.java:35 | mapBits is determined by the pixel count |
| CubemapTable.PowerOfTwoFaces | a7/src/ray2/light/Cubemap.java:95-97 | with a face side of 2^e the search as written stays in the table |
| CubemapTable.BlockThreeOutOfBounds | a7/src/ray2/light/Cubemap.java:95-97 | with a face side of 3 a block of the search runs past the table |
| CubemapFaces.FaceCol | a7/src/ray2/light/Cubemap.java:188 | each face's column in the cross layout is 0, 1 or 2 |
| CubemapFaces.FaceRow | a7/src/ray2/light/Cubemap.java:188 | each face's row in the cross layout is 0 to 3 |
| CubemapFaces.CellFace | a7/src/ray2/light/Cubemap.java:204 | locFace gives a face or −1 for every cell |
| CubemapFaces.CellOfFace | a7/src/ray2/light/Cubemap.java:188-204 | the cell faceLoc gives for a face maps back to that face |
| CubemapFaces.FaceOfCell | a7/src/ray2/light/Cubemap.java:188-204 | a cell that holds a face is that face's cell |
| CubemapFaces.PixelCoord | a7/src/ray2/light/Cubemap.java:191-192 | the column within a face is the floor of (u+1)·blockSz/2, never negative |
| CubemapFaces.IndexToFace | a7/src/ray2/light/Cubemap.java:201-218 | the face is −1 (an unused cell) or one of 0 to 5 |
| CubemapFaces.IndexRowBound | a7/src/ray2/light/Cubemap.java:207-208 | the row of a pixel index is within the image |
| CubemapFaces.DirToFace | a7/src/ray2/light/Cubemap.java:135-156 | a non-zero direction gives a face 0 to 5 and coordinates in [−1, 1] |
| CubemapFaces.AxesOfDirToFace | a7/src/ray2/light/Cubemap.java:140-152 | the face's axis is a largest component of the direction, and the coordinates are the other two over it |
| CubemapFaces.FaceToDirOfDirToFace | a7/src/ray2/light/Cubemap.java:135-184 | faceToDir(dirToFace(d)) is d normalised |
| CubemapFaces.DirToFaceOfFaceToDir | a7/src/ray2/light/Cubemap.java:135-184 | dirToFace(faceToDir(p)) is p for a face point strictly inside its face |
| CubemapFaces.PixelCoordRange | a7/src/ray2/light/Cubemap.java:191-192 | for u in [−1, 1] the pixel column is in [0, blockSz], and blockSz only at u = 1 |
| CubemapFaces.FaceToIndexOfPixel | a7/src/ray2/light/Cubemap.java:186-198 | faceToIndex is the row-major index of the pixel's image cell |
| CubemapFaces.FaceToIndexNoOverflow | a7/src/ray2/light/Cubemap.java:191-198 | every int intermediate of faceToIndex stays in the int range |
| CubemapFaces.CellIndexBounds | a7/src/ray2/light/Cubemap.java:195-198 | the index lies in the image |
| CubemapFaces.IndexToFaceOfCell | a7/src/ray2/light/Cubemap.java:201-218 | indexToFace of a pixel in a face's cell gives that face and the pixel's centre |
| CubemapFaces.IndexToFaceOfFaceToIndex | a7/src/ray2/light/Cubemap.java:186-218 | for u, v in [−1, 1), faceToIndex then indexToFace gives back the face and a point at most 1/blockSz away in each coordinate |
| CubemapFaces.CentreNear | a7/src/ray2/light/Cubemap.java:215 | a face coordinate in pixel i is at most 1/blockSz from that pixel's centre |
| CubemapFaces.DirToFaceIndexInRange | a7/src/ray2/light/Cubemap.java:74-75 | faceToIndex(dirToFace(d)) is a pixel of the image |
| CubemapFaces.SpillBounds | a7/src/ray2/light/Cubemap.java:195-198 | at u = 1 the column spills into the next cell but stays in the image |
| CubemapFaces.DiagonalIndexOffFace | a7/src/ray2/light/Cubemap.java:135-198 | the direction (x, x, 0) lands on face 2 at u = 1, and its pixel is in the unused cell at row 3, column 2 |
| CubemapFaces.SpillCellUnused | a7/src/ray2/light/Cubemap.java:204 | that cell holds no face |
| CubemapFaces.JitterInPixel | a7/src/ray2/light/Cubemap.java:105-106 | the jittered point lies strictly inside the pixel for seeds in (0, 1) |
| CubemapFaces.FaceToIndexOfJitter | a7/src/ray2/light/Cubemap.java:103-106 | the jittered point maps back to the pixel it came from |
| CubemapFaces.IndexIsCell | a7/src/ray2/light/Cubemap.java:207-215 | the cell indexToFace reads off an index is the one containing it |
| PfmHeader.ByteWhitespace | a7/src/ray2/light/Cubemap.java:307-310 | Character.isWhitespace on a signed byte cast to char: the ASCII separators 9–13 and 28–32 |
| PfmHeader.ScanRun | a7/src/ray2/light/Cubemap.java:307-311 | a scan stops at the first byte that ends the run, and every byte before it belongs to the run |
| PfmHeader.WordAt | a7/src/ray2/light/Cubemap.java:303-314 | the position never moves backwards or past the end; end-of-file only at the end of the stream; a word read is non-empty and the position moves past it and its separator |
| PfmHeader.WordShape | a7/src/ray2/light/Cubemap.java:303-314 | the word holds no whitespace and the position after it is past the separator |
| PfmHeader.WordAtRun | a7/src/ray2/light/Cubemap.java:303-314 | whitespace, a non-blank run and a separator give that run back as the word |
| PfmHeader.WordAtOfWritten | a7/src/ray2/light/Cubemap.java:303-314 | reading a word written after blanks and followed by a blank gives it back, and continues after the blank |
| PfmHeader.DataInput.ReadByte | a7/src/ray2/light/Cubemap.java:274 | successive bytes of the stream, and end-of-file past the end |
| PfmHeader.ReadWord | a7/src/ray2/light/Cubemap.java:303-314 | the word and position are WordAt's |
| PfmHeader.SkipSpace | a7/src/ray2/light/Cubemap.java:307-308 | the loop stops at the first non-blank byte or at the end |
| PfmHeader.CollectWord | a7/src/ray2/light/Cubemap.java:309-311 | the loop collects bytes up to the next blank or the end |
| PfmHeader.ParseInt | a7/src/ray2/light/Cubemap.java:288 | Integer.parseInt: every value parsed is in the int range and every failure is a NumberFormatException |
| PfmHeader.ParseIntOfDecimal | a7/src/ray2/light/Cubemap.java:288 | parsing the decimal digits of a non-negative int gives it back |
| PfmHeader.ParseIntOfNegative | a7/src/ray2/light/Cubemap.java:288 | parsing a minus sign and digits gives the negative value |
| PfmHeader.PNMHeaderInfo.constructor | a7/src/ray2/light/Cubemap.java:235-238 | width, height, bands and maxval start at 0 |
| PfmHeader.IntWordAt | a7/src/ray2/light/Cubemap.java:288-289 | an int field stays inside the stream, end-of-file only at its end, and its value is in the int range |
| PfmHeader.FloatWordAt | a7/src/ray2/light/Cubemap.java:291 | a float field stays inside the stream, end-of-file only at its end |
| PfmHeader.FieldsAt | a7/src/ray2/light/Cubemap.java:288-300 | a header is produced exactly when the result is a value; it then has 3 bands and the result is 3·width·height wrapped to an int |
| PfmHeader.HeaderAt | a7/src/ray2/light/Cubemap.java:271-301 | the position stays inside the stream, and end-of-file is only reported at its end |
| PfmHeader.HeaderStored | a7/src/ray2/light/Cubemap.java:271-301 | a header is produced exactly when the result is a value and the bytes start with "PF"; it then has 3 bands and the result is its wrapped image size |
| PfmHeader.IntWordRun | a7/src/ray2/light/Cubemap.java:288 | a written decimal followed by a blank reads back as that int |
| PfmHeader.FieldsOfWords | a7/src/ray2/light/Cubemap.java:288-300 | three written fields read back as their values |
| PfmHeader.MagicThenFields | a7/src/ray2/light/Cubemap.java:274-286 | after "PF" and whitespace the fields are read from the first non-blank byte |
| PfmHeader.FieldsOfLayout | a7/src/ray2/light/Cubemap.java:288-300 | the fields of a written header read back, with imageSize the wrapped pixel count times 3 |
| PfmHeader.WidthOfLayout | a7/src/ray2/light/Cubemap.java:288 | the width word of a written header reads back |
| PfmHeader.MaxvalOfLayout | a7/src/ray2/light/Cubemap.java:289-291 | the height and maxval words of a written header read back |
| PfmHeader.HeaderOfWritten | a7/src/ray2/light/Cubemap.java:271-301 | a written header reads back as its width, height, maxval and wrapped image size |
| PfmHeader.MinusOneIsAmbiguous | a7/src/ray2/light/Cubemap.java:290 | a header of 5 × 286331153 pixels has imageSize −1, the value readPFM (line 249) takes for a bad header |
| PfmHeader.ReadIntWord | a7/src/ray2/light/Cubemap.java:288 | reads a word and parses it as IntWordAt says |
| PfmHeader.ReadFloatWord | a7/src/ray2/light/Cubemap.java:291 | reads a word and parses it as FloatWordAt says |
| PfmHeader.ReadFields | a7/src/ray2/light/Cubemap.java:288-300 | reads the three fields as FieldsAt says and stores them |
| PfmHeader.ReadPPMHeader | a7/src/ray2/light/Cubemap.java:271-301 | the result is HeaderAt's for the stream's bytes, and the info record holds the fields read |
| JavaNum.Wrap32 | a7/src/ray2/light/Cubemap.java:290 | Java int arithmetic: the result lies in the int range and equals the mathematical value when that fits |
| JavaNum.Wrap32Mod | a7/src/ray2/light/Cubemap.java:290 | wrapping is reduction modulo 2^32 into [−2^31, 2^31) |
| JavaNum.Shl1 | a7/src/ray2/light/Cubemap.java:96 | `1 << p` is 2^p for p in [0, 31) |

## Left out

- VecMath.Lib: sqrt, exp, log, sin and cos are left uninterpreted. The only laws the model assumes are `Lawful`, `TrigLawful`, `ExpLawful` and `LogLawful`. No proof depends on the numerical values the Java library computes.
- Floating point: doubles are exact reals, so rounding, NaN and infinities are not modelled.
  - These `(float)` casts are dropped: the sine in Beckmann.java:47, the casts in GGX.java:45 and 49, `(float) Math.pow` in Cubemap.java:232, and those in MicrofacetDistribution.java:29-37.
  - `(float)Math.PI` in GGX.java:30 is kept as the exact float value.
  - Math.PI is the exact double as a decimal.
- Normalising the zero vector gives the zero vector (`VecMath.Normalize`), where Java gives NaN. egl.math's Vector3d, Colord and Vector2d are not part of this model; their operations are written out as functions on `Vec3` and `Color`.
- `System.err` logging, `printStackTrace`, the `toString` methods, and `parseFloat`'s NaN and infinity spellings are not modelled. `parseFloat` and its format errors are a parameter of the header reader.
- readPFM's file I/O (Cubemap.java:240-269) is not modelled. `setFilename` becomes `SetImage(w, h, data)`, taking the image readPFM would return.
- Math.random() is a parameter: `xi` in GlazedBSDF.sample and `a`, `b` in RectangleLight.sample.
- MicrofacetDistribution.Sample, Beckmann.SampleHelper and Ggx.SampleHelper (and the microfacet sampling members built on them): require 0 ≤ seed.x < 1. This is the range of Math.random(), which produces the seeds; at seed.x = 1 Beckmann would take log 0 and GGX would divide by zero.
- getDiffuseReflectance returns the colour by value, where Java returns the field by reference (aliasing is not modelled).
- CubemapLight.Cubemap.Sample: requires 0 < seed.x. At 0, seedX would be 0/0 in Java, and pixel 0 lies in an unused cell.
- CubemapLight.Cubemap.SetImage: requires the exact 3:4 cross layout, with 3·width·height within the int range (`Fits`), and a positive total weight. Java divides 0 by 0 when the total is zero.
- CubemapFaces.DirToFace: requires a non-zero direction. Java divides by zero there.
- CubemapLight.Cubemap.Eval: requires a non-zero direction.
- CubemapLight.Cubemap.Pdf: requires a non-zero direction and a loaded map.
- Bsdf.Fresnel: requires 0 < ior, and an index other than 1 at grazing incidence (`Bsdf.FresnelDefined`). At a zero cosine with ior = 1 Java computes 0/0 = NaN in the amplitude ratios.
- GlassBsdf.GlassBSDF.Sample: requires Dot(dir1, normal) ≠ 0 and 0 < ior (`GlassBsdf.SampleDefined`). At a zero cosine with total reflection Java divides R/cos₁ by zero and gets ±Inf.
- GlazedBsdf.GlazedBSDF.Sample: requires Dot(dir1, normal) ≠ 0 and 0 < ior (`GlazedBsdf.SampleDefined`), for the same division.
- Beckmann.G: requires Dot(v, n) ≠ 0 and 0 < alpha. Java computes vm/0 = Inf and continues.
- MicrofacetDistribution.Admissible: a distribution's alpha must be positive, since D and sample divide by it.
- MicrofacetBsdf.MicrofacetBSDF.Eval: requires a distribution (`dist.Some?`); Java throws a NullPointerException without one. The same holds for Sample and Pdf.
- GlazedBsdf.GlazedBSDF.Eval: requires a substrate; Java throws a NullPointerException without one. The same holds for DiffuseReflectance.
- PointLight.PointLight.Sample: requires the shading point to differ from the light's position, where Java divides by zero.
- RectangleLight.RectangleLight.Sample: requires the shading point to differ from the sampled point and width·height ≠ 0. RectangleLight.RectangleLight.Pdf also requires width·height ≠ 0.
- GlazedBsdf.Substrate: a glazed BSDF's substrate is a Lambertian, microfacet or glass BSDF. A glazed BSDF nested in another glazed BSDF is not modelled: it would make the glazed BSDF's sample and eval recursive through an object field, each call with its own frame.
- PointLight.PointLight.Init: modelled as the no-op it is. It has no contract beyond its empty frame, so it has no row above.
- RectangleLight's mesh and transformation setup in init (RectangleLight.java:65-92) is not modelled. It builds scene geometry from OBJMesh, Mesh and Matrix4d, which are not part of this model. Only the basis computation is.
- These setters and getters are not modelled; they store or return a field:
  - setDiffuseColor in LambertianBSDF;
  - setDiffuseColor, setSpecularColor, setRefractiveIndex and setRoughness in MicrofacetBSDF;
  - setRefractiveIndex in GlassBSDF and GlazedBSDF;
  - setNormalDir, setUpDir, setWidth and setHeight in RectangleLight;
  - getAlpha and getNt in MicrofacetDistribution;
  - getPosition and getIntensity in PointLight;
  - setIntensity in Light.
- The abstract classes BSDF, Light, Environment and MicrofacetDistribution are not modelled as classes. Each is modelled by its concrete subclasses, or by a datatype over its two variants.
- Bsdf.FresnelFixtureIndexTwo and Bsdf.FresnelFixtureIndexFive are stated for any pair of vectors with cosine 1, not for the test's concrete vectors. Bsdf.FixtureCosines says that the test's pairs have dot products 0 and 1, which fresnel takes as cos₁ without normalising.
- The first fresnel test case (BSDFTests.java:209-222, expected 0.1549192) depends on the numerical square root, so it is not modelled.
- PfmHeader.ParseInt accepts an optional sign, '+' or '-', followed by ASCII decimal digits. Integer.parseInt also accepts non-ASCII decimal digits, but no such character can occur here: a byte cast to char is in 0..0x7F or 0xFF80..0xFFFF, and Java has no decimal digits in either range.
- LightSamplingRecord.java is not part of this model. `LightRecord.LightSamplingRecord` holds its four fields as the lights write them.
- The integrators and the test harnesses are not modelled.

## Findings

| source | as written | input that shows it | evidently intended | confidence | as-written member | corrected member |
|---|---|---|---|---|---|---|
| a7/src/ray2/light/Cubemap.java:95-97 | the binary search reads `cumProb[k + (1 << p)]` with no bounds test, modelled by `CubemapLight.SearchAsWritten`; it stays in the table only when every block does (`CubemapTable.SearchInBounds`), which holds for power-of-two faces (`CubemapTable.PowerOfTwoFaces`) | a 9 × 12 map (face side 3, 108 pixels, mapBits 7) with positive weight on face 2's bottom row (pixels 102–104) and seed.x above cumProb[96]: the search settles k = 64, then k = 96, and then reads cumProb[112] of a 109-entry table (ArrayIndexOutOfBoundsException) | step only when k + 2^p is within the table, so the search finds the last pixel whose cumulative probability is below seed.x for any face size (`CubemapLight.Search`, used by `CubemapLight.Cubemap.Sample`) | not executed | CubemapLight.SearchRunsPastTable | CubemapLight.Search |
